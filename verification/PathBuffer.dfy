/** PathBuffer: the one C string that all levels of a directory walk share. */
module PathBuffers {

  import opened Basics

  /** The C string that starts a block of memory. */
  function CString(a: seq<char>): string
  {
    if a == [] || a[0] == NUL then "" else [a[0]] + CString(a[1..])
  }

  lemma {:induction false} CStringUpToNul(a: seq<char>, t: string)
    requires |t| < |a| && a[..|t|] == t && a[|t|] == NUL && NUL !in t
    ensures CString(a) == t
    decreases |t|
  {
    if t != "" {
      assert a[0] == a[..|t|][0] == t[0];
      assert a[1..][..|t| - 1] == a[..|t|][1..] == t[1..];
      CStringUpToNul(a[1..], t[1..]);
    }
  }

  function Min(a: int, b: int): int { if a < b then a else b }

  class PathBuffer {
    const limit: nat           // PATH_MAX
    const data: array<char>
    var length: nat
    ghost var text: string     // the C string in `data`

    ghost predicate Valid()
      reads this, data
    {
      && 1 <= limit && data.Length == limit + 1
      && |text| < limit && data[..|text|] == text && data[|text|] == NUL && NUL !in text
      && (length <= |text| || length == limit)
    }

    constructor (limit: nat)
      requires 1 <= limit
      ensures Valid() && fresh(data) && this.limit == limit && length == 0 && text == ""
    {
      this.limit := limit;
      data := new char[limit + 1](_ => NUL);
      length := 0;
      text := "";
    }

    lemma TextFits()
      requires Valid()
      ensures |text| < limit
    {
    }

    method AsString() returns (s: string)
      requires Valid()
      ensures s == text
    {
      CStringUpToNul(data[..], text);
      s := CString(data[..]);
    }

    /** snprintf(data + length, limit - length, "%s", name). */
    method Format(name: string) returns (written: nat)
      requires Valid() && NUL !in name
      modifies this`text, data
      ensures Valid() && written == |name|
      ensures text == if length == limit then old(text)
                      else (old(text)[..length] + name)[..Min(length + |name|, limit - 1)]
    {
      if length < limit {
        var n := Min(|name|, limit - length - 1);
        ghost var kept := text[..length];
        assert data[..length] == kept;
        for k := 0 to n
          invariant data[..length + k] == kept + name[..k]
        {
          data[length + k] := name[k];
        }
        data[length + n] := NUL;
        text := kept + name[..n];
      }
      written := |name|;
    }

    /** Appends `name`. It reports success also when the name exactly fills the
        buffer, where the last character has been dropped for the terminator. */
    method Add(name: string) returns (ok: bool)
      requires Valid() && NUL !in name
      modifies this, data
      ensures Valid()
      ensures ok <==> old(length) + |name| <= limit
      ensures length == old(length) + if ok then |name| else 0
      ensures old(length) + |name| < limit ==> text == old(text)[..old(length)] + name && |text| == length
      ensures old(length) == limit ==> text == old(text)
      ensures old(length) + |name| >= limit > old(length) ==>
                text == (old(text)[..old(length)] + name)[..limit - 1]
    {
      var written := Format(name);
      data[limit] := NUL;
      if written <= limit - length && written == Min(|name|, limit + 1) {
        length := length + written;
        return true;
      }
      return false;
    }

    method Reset(newLength: nat)
      requires Valid() && (newLength <= |text| || newLength == limit)
      modifies this, data
      ensures Valid() && length == newLength
      ensures text == if newLength <= |old(text)| then old(text)[..newLength] else old(text)
    {
      length := newLength;
      data[newLength] := NUL;
      text := if newLength <= |text| then text[..newLength] else text;
    }
  }
}
