/** Placing the PT_LOAD segments of an in-memory ELF file into one image. */
module ElfImage {
  import opened Basics

  newtype byte = x: int | 0 <= x < 256

  const WORD: nat := 0x1_0000_0000_0000_0000

  datatype Flags = ReadOnly | ReadWrite | ReadExecute | Unsupported

  datatype ProgramHeader = ProgramHeader(
    isLoad: bool, flags: Flags, fileOffset: nat, memoryOffset: nat, memorySize: nat, alignment: nat)

  /** The file and where the ELF data starts in it, and the page size. */
  datatype Source = Source(file: seq<byte>, dataOffset: nat, pageSize: nat)

  function RoundUp(x: nat, p: nat): (r: nat)
    requires p > 0
    ensures x <= r < x + p
  {
    RoundUpAtLeast(x, p);
    ((x + p - 1) / p) * p
  }

  /** The least multiple of `p` that is not below `x`. */
  lemma RoundUpLeast(x: nat, p: nat)
    requires p > 0
    ensures x <= RoundUp(x, p) < x + p && RoundUp(x, p) % p == 0
  {
    RoundUpAtLeast(x, p);
  }

  lemma RoundUpAtLeast(x: nat, p: nat)
    requires p > 0
    ensures x <= ((x + p - 1) / p) * p < x + p && ((x + p - 1) / p) * p % p == 0
  {
    var q := (x + p - 1) / p;
    assert x + p - 1 == q * p + (x + p - 1) % p;
    Multiple(q, p);
  }

  /** A multiple has no remainder. */
  lemma {:induction false} Multiple(q: nat, p: nat)
    requires p > 0
    ensures q * p % p == 0
  {
    if q > 0 {
      Multiple(q - 1, p);
      assert q * p == (q - 1) * p + p;
      AddModulus((q - 1) * p, p);
    }
  }

  lemma AddModulus(x: nat, p: nat)
    requires p > 0
    ensures (x + p) % p == x % p
  {
    var q, m := x / p, x % p;
    assert x + p == (q + 1) * p + m;
    Remainder(x + p, q + 1, m, p);
  }

  /** Quotient and remainder are unique. */
  lemma Remainder(x: nat, q: nat, m: nat, p: nat)
    requires p > 0 && m < p && x == q * p + m
    ensures x % p == m && x / p == q
  {
    var q', m' := x / p, x % p;
    assert q' * p + m' == q * p + m;
    assert (q + 1) * p == q * p + p && (q' + 1) * p == q' * p + p;
    if q < q' {
      TimesMonotone(q + 1, q', p);
    } else if q' < q {
      TimesMonotone(q' + 1, q, p);
    }
  }

  /** Two offsets with the same remainder differ by whole pages. */
  lemma SamePlaceInPage(x: nat, p: nat)
    requires p > 0
    ensures x - x % p >= 0 && (x - x % p) % p == 0
  {
    assert x - x % p == (x / p) * p;
    Multiple(x / p, p);
  }

  // ---------------------------------------------------------------- what the image should hold

  /** A byte of the file; zero past its end. */
  function FileByte(file: seq<byte>, at: nat): byte { if at < |file| then file[at] else 0 }

  function Adjustment(s: Source, h: ProgramHeader): (a: nat)
    requires s.pageSize > 0
    ensures a <= h.memoryOffset && a < s.pageSize
  {
    h.memoryOffset % s.pageSize
  }

  /** Where in the image the mapping of a segment starts and ends, and where in
      the file. */
  function Start(s: Source, h: ProgramHeader): nat
    requires s.pageSize > 0
  {
    h.memoryOffset - Adjustment(s, h)
  }

  function End(h: ProgramHeader): nat { h.memoryOffset + h.memorySize }

  predicate Congruent(s: Source, h: ProgramHeader)
    requires s.pageSize > 0
  {
    h.memoryOffset % s.pageSize == h.fileOffset % s.pageSize
  }

  function FileStart(s: Source, h: ProgramHeader): nat
    requires s.pageSize > 0 && Congruent(s, h)
  {
    s.dataOffset + h.fileOffset - Adjustment(s, h)
  }

  /** All that is checked of one segment before it is mapped. */
  predicate Loadable(s: Source, h: ProgramHeader)
    requires s.pageSize > 0
  {
    Congruent(s, h) && !h.flags.Unsupported? && FileStart(s, h) <= |s.file|
  }

  predicate Covers(s: Source, h: ProgramHeader, a: nat)
    requires s.pageSize > 0
  {
    h.isLoad && Start(s, h) <= a < End(h)
  }

  /** What address `a` of the image holds: the byte of the last segment that
      covers it, and zero if none does. */
  function ImageByte(s: Source, hs: seq<ProgramHeader>, a: nat): byte
    requires s.pageSize > 0
  {
    if hs == [] then 0
    else
      var h := hs[|hs| - 1];
      if Covers(s, h, a) && Congruent(s, h) then FileByte(s.file, FileStart(s, h) + (a - Start(s, h)))
      else ImageByte(s, hs[..|hs| - 1], a)
  }

  /** A segment holds exactly its part of the file wherever no later segment
      covers it. */
  lemma {:induction false} SegmentHolds(s: Source, hs: seq<ProgramHeader>, i: nat, k: nat)
    requires s.pageSize > 0 && i < |hs| && hs[i].isLoad && Congruent(s, hs[i]) && k < hs[i].memorySize
    requires forall j :: i < j < |hs| ==> !Covers(s, hs[j], hs[i].memoryOffset + k)
    ensures ImageByte(s, hs, hs[i].memoryOffset + k) == FileByte(s.file, s.dataOffset + hs[i].fileOffset + k)
    decreases |hs|
  {
    if i < |hs| - 1 { SegmentHolds(s, hs[..|hs| - 1], i, k); }
  }

  /** From the page boundary before it, too. */
  lemma {:induction false} PagesHold(s: Source, hs: seq<ProgramHeader>, i: nat, a: nat)
    requires s.pageSize > 0 && i < |hs| && Covers(s, hs[i], a) && Congruent(s, hs[i])
    requires forall j :: i < j < |hs| ==> !Covers(s, hs[j], a)
    ensures s.dataOffset + hs[i].fileOffset + a >= hs[i].memoryOffset
    ensures ImageByte(s, hs, a) == FileByte(s.file, s.dataOffset + hs[i].fileOffset + a - hs[i].memoryOffset)
    decreases |hs|
  {
    if i < |hs| - 1 { PagesHold(s, hs[..|hs| - 1], i, a); }
  }

  /** And what no segment covers is zero. */
  lemma {:induction false} RestIsZero(s: Source, hs: seq<ProgramHeader>, a: nat)
    requires s.pageSize > 0 && forall j :: 0 <= j < |hs| ==> !Covers(s, hs[j], a)
    ensures ImageByte(s, hs, a) == 0
  {
    if hs != [] { RestIsZero(s, hs[..|hs| - 1], a); }
  }

  /** Pages of one segment. */
  function PageEnd(s: Source, h: ProgramHeader): nat
    requires s.pageSize > 0
  {
    RoundUp(End(h), s.pageSize)
  }

  ghost predicate PagesDisjoint(s: Source, hs: seq<ProgramHeader>)
    requires s.pageSize > 0
  {
    forall i, j :: 0 <= i < j < |hs| && hs[i].isLoad && hs[j].isLoad ==>
      PageEnd(s, hs[i]) <= Start(s, hs[j]) || PageEnd(s, hs[j]) <= Start(s, hs[i])
  }

  /** With disjoint pages every segment holds its part of the file. */
  lemma DisjointSegmentsHold(s: Source, hs: seq<ProgramHeader>, i: nat, k: nat)
    requires s.pageSize > 0 && PagesDisjoint(s, hs)
    requires i < |hs| && hs[i].isLoad && Congruent(s, hs[i]) && k < hs[i].memorySize
    ensures ImageByte(s, hs, hs[i].memoryOffset + k) == FileByte(s.file, s.dataOffset + hs[i].fileOffset + k)
  {
    var a := hs[i].memoryOffset + k;
    forall j | i < j < |hs| ensures !Covers(s, hs[j], a) {
      if hs[j].isLoad {
        assert PageEnd(s, hs[i]) <= Start(s, hs[j]) || PageEnd(s, hs[j]) <= Start(s, hs[i]);
      }
    }
    SegmentHolds(s, hs, i, k);
  }

  // ---------------------------------------------------------------- mapping

  /** MemoryMappable::Map onto a given place: copies what the file has and
      zeroes the rest. */
  method Map(file: seq<byte>, position: nat, length: nat, image: array<byte>, start: nat) returns (ok: bool)
    requires start + length <= image.Length
    modifies image
    ensures ok <==> position <= |file|
    ensures !ok ==> image[..] == old(image[..])
    ensures ok ==> forall a :: 0 <= a < image.Length ==>
              image[a] == if start <= a < start + length then FileByte(file, position + (a - start)) else old(image[a])
  {
    if position > |file| { return false; }
    var copied, remainder := length, 0;
    if position + length > |file| {
      remainder := position + length - |file|;
      copied := |file| - position;
    }
    for k := 0 to copied
      invariant forall a :: 0 <= a < image.Length ==>
                  image[a] == if start <= a < start + k then file[position + (a - start)] else old(image[a])
    {
      image[start + k] := file[position + k];
    }
    for k := 0 to remainder
      invariant forall a :: 0 <= a < image.Length ==>
                  image[a] == if start <= a < start + copied then file[position + (a - start)]
                              else if start + copied <= a < start + copied + k then 0 else old(image[a])
    {
      image[start + copied + k] := 0;
    }
    return true;
  }

  datatype Outcome = Loaded | BadAlignment | NoMemory | NotPageAligned | BadFlags | CannotMap

  predicate IsPowerOfTwo(x: nat)
  {
    if x <= 1 then x == 1 else x % 2 == 0 && IsPowerOfTwo(x / 2)
  }

  function TwoTo(k: nat): nat { if k == 0 then 1 else 2 * TwoTo(k - 1) }

  lemma PowersExactly(x: nat)
    ensures IsPowerOfTwo(x) <==> exists k: nat :: x == TwoTo(k)
  {
    if IsPowerOfTwo(x) { var k := ExponentOf(x); }
    if k: nat :| x == TwoTo(k) { PowerIsOne(k); }
  }

  lemma {:induction false} ExponentOf(x: nat) returns (k: nat)
    requires IsPowerOfTwo(x)
    ensures x == TwoTo(k)
  {
    k := 0;
    if x > 1 {
      k := ExponentOf(x / 2);
      k := k + 1;
    }
  }

  lemma {:induction false} PowerIsOne(k: nat)
    ensures TwoTo(k) > 0 && IsPowerOfTwo(TwoTo(k))
  {
    if k > 0 {
      PowerIsOne(k - 1);
      assert TwoTo(k) / 2 == TwoTo(k - 1);
    }
  }

  /** No sum that the loader forms wraps around. */
  ghost predicate NoWrap(s: Source, hs: seq<ProgramHeader>)
    requires s.pageSize > 0
  {
    forall i :: 0 <= i < |hs| && hs[i].isLoad ==>
      && PageEnd(s, hs[i]) < WORD && s.dataOffset + hs[i].fileOffset + hs[i].memorySize < WORD
  }

  function MaxEnd(hs: seq<ProgramHeader>): nat
  {
    if hs == [] then 0
    else
      var m, h := MaxEnd(hs[..|hs| - 1]), hs[|hs| - 1];
      if h.isLoad && End(h) > m then End(h) else m
  }

  lemma {:induction false} EndsWithinMax(hs: seq<ProgramHeader>, i: nat)
    requires i < |hs| && hs[i].isLoad
    ensures End(hs[i]) <= MaxEnd(hs)
    decreases |hs|
  {
    if i < |hs| - 1 { EndsWithinMax(hs[..|hs| - 1], i); }
  }

  /** The end of some segment, if there is one. */
  lemma {:induction false} MaxIsAnEnd(hs: seq<ProgramHeader>)
    ensures MaxEnd(hs) == 0 || exists i :: 0 <= i < |hs| && hs[i].isLoad && End(hs[i]) == MaxEnd(hs)
    decreases |hs|
  {
    if hs != [] {
      var front := hs[..|hs| - 1];
      MaxIsAnEnd(front);
      if i :| 0 <= i < |front| && front[i].isLoad && End(front[i]) == MaxEnd(front) {
        assert hs[i].isLoad && End(hs[i]) == MaxEnd(front);
      }
    }
  }

  /** Every page of every segment lies inside the reserved image, from a page
      boundary on. */
  lemma PagesInsideImage(s: Source, hs: seq<ProgramHeader>, i: nat)
    requires s.pageSize > 0 && i < |hs| && hs[i].isLoad
    ensures Start(s, hs[i]) % s.pageSize == 0
    ensures Start(s, hs[i]) <= PageEnd(s, hs[i]) <= RoundUp(MaxEnd(hs), s.pageSize)
    ensures End(hs[i]) <= RoundUp(MaxEnd(hs), s.pageSize)
  {
    var p := s.pageSize;
    SamePlaceInPage(hs[i].memoryOffset, p);
    EndsWithinMax(hs, i);
    RoundUpMonotone(End(hs[i]), MaxEnd(hs), p);
  }

  lemma RoundUpMonotone(x: nat, y: nat, p: nat)
    requires p > 0 && x <= y
    ensures RoundUp(x, p) <= RoundUp(y, p)
  {
    QuotientMonotone(x + p - 1, y + p - 1, p);
    TimesMonotone((x + p - 1) / p, (y + p - 1) / p, p);
  }

  lemma QuotientMonotone(x: nat, y: nat, p: nat)
    requires p > 0 && x <= y
    ensures x / p <= y / p
  {
    var a, b := x / p, y / p;
    assert x == a * p + x % p && y == b * p + y % p;
    assert (b + 1) * p == b * p + p;
    if b < a { TimesMonotone(b + 1, a, p); }
  }

  /** The first loop: how much memory the segments need. */
  method TotalMemory(hs: seq<ProgramHeader>) returns (total: nat, ok: bool)
    ensures ok <==> forall i :: 0 <= i < |hs| && hs[i].isLoad ==> IsPowerOfTwo(hs[i].alignment)
    ensures ok ==> total == MaxEnd(hs)
    ensures ok ==> forall i :: 0 <= i < |hs| && hs[i].isLoad ==> End(hs[i]) <= total
    ensures ok ==> total == 0 || exists i :: 0 <= i < |hs| && hs[i].isLoad && End(hs[i]) == total
  {
    total := 0;
    for i := 0 to |hs|
      invariant total == MaxEnd(hs[..i])
      invariant forall j :: 0 <= j < i && hs[j].isLoad ==> IsPowerOfTwo(hs[j].alignment)
    {
      assert hs[..i + 1][..i] == hs[..i];
      var h := hs[i];
      if !h.isLoad { continue; }
      if End(h) > total { total := End(h); }
      if !IsPowerOfTwo(h.alignment) { return total, false; }
    }
    assert hs[..|hs|] == hs;
    forall i | 0 <= i < |hs| && hs[i].isLoad ensures End(hs[i]) <= total { EndsWithinMax(hs, i); }
    MaxIsAnEnd(hs);
    return total, true;
  }

  /** LoadSegments, from a file in memory. It succeeds exactly when every check
      does, and then the image holds what it should at every address. */
  method LoadSegments(s: Source, hs: seq<ProgramHeader>, noMemory: bool) returns (image: array<byte>, r: Outcome)
    requires s.pageSize > 0 && NoWrap(s, hs)
    ensures fresh(image)
    ensures r == Loaded <==>
              && !noMemory
              && forall i :: 0 <= i < |hs| && hs[i].isLoad ==> IsPowerOfTwo(hs[i].alignment) && Loadable(s, hs[i])
    ensures r == Loaded ==>
              && image.Length == RoundUp(MaxEnd(hs), s.pageSize)
              && forall a :: 0 <= a < image.Length ==> image[a] == ImageByte(s, hs, a)
  {
    image := new byte[0];
    var total, ok := TotalMemory(hs);
    if !ok { return image, BadAlignment; }
    if noMemory { return image, NoMemory; }
    total := RoundUp(total, s.pageSize);
    image := new byte[total](_ => 0);
    for i := 0 to |hs|
      invariant fresh(image) && image.Length == total
      invariant forall j :: 0 <= j < i && hs[j].isLoad ==> Loadable(s, hs[j])
      invariant forall a :: 0 <= a < total ==> image[a] == ImageByte(s, hs[..i], a)
    {
      assert hs[..i + 1][..i] == hs[..i];
      var h := hs[i];
      if !h.isLoad { continue; }
      if !Congruent(s, h) { return image, NotPageAligned; }
      if h.flags.Unsupported? { return image, BadFlags; }
      PagesInsideImage(s, hs, i);
      var mapped := Map(s.file, FileStart(s, h), h.memorySize + Adjustment(s, h), image, Start(s, h));
      if !mapped { return image, CannotMap; }
    }
    assert hs[..|hs|] == hs;
    return image, Loaded;
  }

  // ---------------------------------------------------------------- unaligned pieces

  /** The place of `x` in its page. */
  function InPage(x: nat, p: nat): nat
    requires p > 0
  {
    x % p
  }

  lemma WholePages(x: nat, p: nat) returns (q: nat)
    requires p > 0
    ensures x == q * p + InPage(x, p) && InPage(x, p) < p
  {
    q := x / p;
  }

  lemma PlaceIs(x: nat, q: nat, m: nat, p: nat)
    requires p > 0 && m < p && x == q * p + m
    ensures InPage(x, p) == m
  {
    Remainder(x, q, m, p);
  }

  lemma Distribute(a: nat, b: nat, p: nat)
    ensures (a + b) * p == a * p + b * p
  {
  }

  lemma PlaceOfSum(x: nat, y: nat, p: nat)
    requires p > 0
    ensures InPage(x + y, p) == InPage(y, p) <==> InPage(x, p) == 0
  {
    hide InPage;
    var a := WholePages(x, p);
    var b := WholePages(y, p);
    var m := InPage(x, p) + InPage(y, p);
    Distribute(a, b, p);
    if m < p {
      PlaceIs(x + y, a + b, m, p);
    } else {
      Distribute(a + b, 1, p);
      PlaceIs(x + y, a + b + 1, m - p, p);
    }
  }

  function PageStart(x: nat, p: nat): (at: nat)
    requires p > 0
    ensures at <= x < at + p
  {
    x - x % p
  }

  /** MapFilePiece: the piece is mapped from a page boundary, and the address
      returned is that of its first byte exactly when the ELF data itself starts
      on one. */
  method MapFilePiece(s: Source, start: nat, length: nat) returns (mapping: array<byte>, first: nat, ok: bool)
    requires s.pageSize > 0 && RoundUp(s.dataOffset + start + length, s.pageSize) < WORD
    ensures fresh(mapping)
    ensures var at := PageStart(s.dataOffset + start, s.pageSize);
            && (ok <==> at <= |s.file|) && InPage(at, s.pageSize) == 0
            && (ok ==> InPage(mapping.Length, s.pageSize) == 0 && at + mapping.Length >= s.dataOffset + start + length)
            && (ok ==> at + mapping.Length < s.dataOffset + start + length + s.pageSize)
            && (ok ==> forall a :: 0 <= a < mapping.Length ==> mapping[a] == FileByte(s.file, at + a))
            && (ok ==> (at + first == s.dataOffset + start <==> InPage(s.dataOffset, s.pageSize) == 0))
  {
    hide RoundUp, PageStart, InPage;
    PieceLength(s.dataOffset + start, length, s.pageSize);
    PiecePlace(s.dataOffset, start, s.pageSize);
    var p := s.pageSize;
    var adjustment := InPage(s.dataOffset + start, p);
    var offset := s.dataOffset + start - adjustment;
    var end := RoundUp(s.dataOffset + start + length, p);
    mapping := new byte[end - offset](_ => 0);
    first := InPage(start, p);
    ok := Map(s.file, offset, end - offset, mapping, 0);
  }

  lemma PieceLength(x: nat, length: nat, p: nat)
    requires p > 0
    ensures PageStart(x, p) <= RoundUp(x + length, p) && x + length <= RoundUp(x + length, p) < x + length + p
    ensures InPage(RoundUp(x + length, p) - PageStart(x, p), p) == 0
  {
    var a := PageStartPages(x, p);
    var b := RoundUpPages(x + length, p);
    hide PageStart, RoundUp;
    if b < a { TimesMonotone(b + 1, a, p); Distribute(b, 1, p); }
    Distribute(a, b - a, p);
    Multiple(b - a, p);
  }

  lemma PageStartPages(x: nat, p: nat) returns (q: nat)
    requires p > 0
    ensures PageStart(x, p) == q * p
  {
    q := x / p;
  }

  lemma RoundUpPages(x: nat, p: nat) returns (q: nat)
    requires p > 0
    ensures RoundUp(x, p) == q * p
  {
    q := (x + p - 1) / p;
  }

  lemma PiecePlace(base: nat, start: nat, p: nat)
    requires p > 0
    ensures PageStart(base + start, p) == base + start - InPage(base + start, p)
    ensures InPage(PageStart(base + start, p), p) == 0
    ensures PageStart(base + start, p) + InPage(start, p) == base + start <==> InPage(base, p) == 0
  {
    SamePlaceInPage(base + start, p);
    PlaceOfSum(base, start, p);
  }
}
