/** The chains of followed links that the entries of a walk share. Every entry
    either shares the chain of the entry below it or owns one node on top of
    it; a node is deleted by its owner only. */
module LinkChains {
  import opened FileTree

  /** LinkList: one followed link, and those followed before it. */
  class LinkNode {
    const id: FileId
    const next: LinkNode?
    ghost const chain: seq<FileId>

    constructor (id: FileId, next: LinkNode?)
      ensures this.id == id && this.next == next && chain == [id] + ChainOf(next)
    {
      this.id := id;
      this.next := next;
      chain := [id] + ChainOf(next);
    }
  }

  ghost function ChainOf(l: LinkNode?): seq<FileId> { if l == null then [] else l.chain }

  type Heads = seq<LinkNode?>

  /** The chain that entry `i` starts from. */
  ghost function Below(heads: Heads, i: nat): LinkNode?
    requires i <= |heads|
  {
    if i == 0 then null else heads[i - 1]
  }

  ghost predicate Owns(heads: Heads, i: nat)
  {
    i < |heads| && heads[i] != null && heads[i] != Below(heads, i)
  }

  /** Only the top entry, before it is first read, may have no chain while the
      one below has. */
  ghost predicate HeadAt(heads: Heads, i: nat)
  {
    && i < |heads|
    && if Owns(heads, i) then
         heads[i].next == Below(heads, i) && heads[i].chain == [heads[i].id] + ChainOf(Below(heads, i))
       else
         i < |heads| - 1 ==> heads[i] == Below(heads, i)
  }

  ghost function Owned(heads: Heads): set<LinkNode>
  {
    set i | 0 <= i < |heads| && Owns(heads, i) :: heads[i]
  }

  /** `live` are the nodes allocated and not deleted, `freed` those deleted. */
  ghost predicate ChainsOk(heads: Heads, live: set<LinkNode>, freed: set<LinkNode>)
  {
    && (forall i :: 0 <= i < |heads| ==> HeadAt(heads, i))
    && live == Owned(heads)
    && live !! freed
  }

  lemma {:induction false} ChainsGrow(heads: Heads, i: nat, j: nat)
    requires i < j <= |heads|
    requires forall k :: 0 <= k < |heads| ==> HeadAt(heads, k)
    requires j < |heads| || heads[j - 1] != null || Below(heads, j - 1) == null
    ensures |ChainOf(heads[i])| <= |ChainOf(Below(heads, j))|
    decreases j
  {
    if i < j - 1 {
      ChainsGrow(heads, i, j - 1);
      assert HeadAt(heads, j - 1);
    }
  }

  lemma {:induction false} HeadLive(heads: Heads, live: set<LinkNode>, freed: set<LinkNode>, i: nat)
    requires ChainsOk(heads, live, freed) && i < |heads|
    ensures heads[i] == null || heads[i] in live
  {
    assert HeadAt(heads, i);
    if !Owns(heads, i) && i > 0 { HeadLive(heads, live, freed, i - 1); }
  }

  /** Whatever an entry can reach through its chain has not been deleted. */
  lemma ReachableIsLive(heads: Heads, live: set<LinkNode>, freed: set<LinkNode>)
    requires ChainsOk(heads, live, freed)
    ensures forall i :: 0 <= i < |heads| ==> heads[i] == null || heads[i] in live
    ensures forall n :: n in live ==> n !in freed && (n.next == null || n.next in live)
    ensures forall n :: n in live ==> n.chain == [n.id] + ChainOf(n.next)
  {
    forall i | 0 <= i < |heads| ensures heads[i] == null || heads[i] in live {
      HeadLive(heads, live, freed, i);
    }
    forall n | n in live
      ensures n.chain == [n.id] + ChainOf(n.next) && (n.next == null || n.next in live)
    {
      var i: nat :| i < |heads| && Owns(heads, i) && n == heads[i];
      assert HeadAt(heads, i);
      if i > 0 { HeadLive(heads, live, freed, i - 1); }
    }
  }

  /** The node the top entry owns is the head of no other entry. */
  lemma OwnedByTopOnly(heads: Heads, i: nat)
    requires forall k :: 0 <= k < |heads| ==> HeadAt(heads, k)
    requires i < |heads| - 1 && Owns(heads, |heads| - 1)
    ensures heads[i] != heads[|heads| - 1]
  {
    var n := |heads| - 1;
    assert HeadAt(heads, n) && HeadAt(heads, n - 1);
    ChainsGrow(heads, i, n);
  }

  /** Replacing the head of the top entry: what the owned set becomes. */
  lemma OwnedWithTop(heads: Heads, head: LinkNode?)
    ensures Owned(heads + [head]) ==
            Owned(heads) + if head != null && head != Below(heads, |heads|) then {head} else {}
  {
    var all := heads + [head];
    forall i | 0 <= i < |heads| ensures Owns(all, i) == Owns(heads, i) && all[i] == heads[i] {}
    assert Owns(all, |heads|) <==> head != null && head != Below(heads, |heads|);
    forall n | n in Owned(heads) ensures n in Owned(all) {
      var i: nat :| i < |heads| && Owns(heads, i) && n == heads[i];
      assert Owns(all, i) && n == all[i];
    }
    if Owns(all, |heads|) { assert all[|heads|] in Owned(all); }
  }

  // What the operations on the top entry do: `base` are the entries below it.

  lemma HeadsBelow(base: Heads, head: LinkNode?, head': LinkNode?)
    requires forall i :: 0 <= i < |base| ==> HeadAt(base + [head], i)
    ensures forall i :: 0 <= i < |base| ==> HeadAt(base + [head'], i)
  {
    forall i | 0 <= i < |base| ensures HeadAt(base + [head'], i) {
      assert HeadAt(base + [head], i);
    }
  }

  /** ResetLink: an owned head is deleted, once, and the chain below shared. */
  lemma ResetTop(base: Heads, head: LinkNode?, live: set<LinkNode>, freed: set<LinkNode>)
    requires ChainsOk(base + [head], live, freed)
    ensures var drop := if head != null && head != Below(base, |base|) then {head} else {};
            && drop <= live
            && ChainsOk(base + [Below(base, |base|)], live - drop, freed + drop)
  {
    var all, b := base + [head], Below(base, |base|);
    OwnedWithTop(base, head);
    OwnedWithTop(base, b);
    HeadsBelow(base, head, b);
    if head != null && head != b {
      assert Owns(all, |base|);
      forall i | 0 <= i < |base| ensures base[i] != head { OwnedByTopOnly(all, i); }
    }
  }

  /** Following a link: a new node on top of the shared chain. */
  lemma FollowTop(base: Heads, head: LinkNode, live: set<LinkNode>, freed: set<LinkNode>)
    requires ChainsOk(base + [Below(base, |base|)], live, freed)
    requires head.next == Below(base, |base|) && head.chain == [head.id] + ChainOf(head.next)
    requires head !in live && head !in freed
    ensures ChainsOk(base + [head], live + {head}, freed)
  {
    var b := Below(base, |base|);
    OwnedWithTop(base, b);
    OwnedWithTop(base, head);
    HeadsBelow(base, b, head);
  }

  lemma PushTop(heads: Heads, live: set<LinkNode>, freed: set<LinkNode>)
    requires ChainsOk(heads, live, freed)
    requires heads != [] ==> Owns(heads, |heads| - 1) || heads[|heads| - 1] == Below(heads, |heads| - 1)
    ensures ChainsOk(heads + [null], live, freed)
  {
    OwnedWithTop(heads, null);
    forall i | 0 <= i < |heads| ensures HeadAt(heads + [null], i) { assert HeadAt(heads, i); }
  }

  lemma PopTop(base: Heads, live: set<LinkNode>, freed: set<LinkNode>)
    requires ChainsOk(base + [Below(base, |base|)], live, freed)
    ensures ChainsOk(base, live, freed)
  {
    var all := base + [Below(base, |base|)];
    OwnedWithTop(base, Below(base, |base|));
    forall i | 0 <= i < |base| ensures HeadAt(base, i) { assert HeadAt(all, i); }
  }
}
