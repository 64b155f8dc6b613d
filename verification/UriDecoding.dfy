/** UriDecoder: percent-decoding (section 2.1 of RFC 3986) of a C string into a
    buffer of the same size. */
module UriDecoding {

  import opened Basics

  // ---------------------------------------------------------------- reference

  predicate IsHex(c: char) { '0' <= c <= '9' || 'A' <= c <= 'F' || 'a' <= c <= 'f' }

  function HexValue(c: char): (v: int)
    requires IsHex(c)
    ensures 0 <= v < 16
  {
    if c <= '9' then c as int - '0' as int
    else if c <= 'F' then c as int - 'A' as int + 10
    else c as int - 'a' as int + 10
  }

  const DIGITS := "0123456789abcdef"
  const CAPITALS := "0123456789ABCDEF"

  /** The hex digits and what each stands for. */
  lemma HexExactly(c: char)
    ensures IsHex(c) <==> c in DIGITS || c in CAPITALS
    ensures IsHex(c) ==> c == DIGITS[HexValue(c)] || c == CAPITALS[HexValue(c)]
    ensures forall v :: 0 <= v < 16 ==> IsHex(DIGITS[v]) && HexValue(DIGITS[v]) == v
    ensures forall v :: 0 <= v < 16 ==> IsHex(CAPITALS[v]) && HexValue(CAPITALS[v]) == v
  {
    if IsHex(c) { assert c == DIGITS[HexValue(c)] || c == CAPITALS[HexValue(c)]; }
  }

  /** A character that stands for itself, or an escape of two hex digits. */
  datatype Token = Literal(c: char) | Escape(hi: char, lo: char)

  predicate IsToken(t: Token)
  {
    match t case Literal(c) => c != '%' case Escape(hi, lo) => IsHex(hi) && IsHex(lo)
  }

  function Text(ts: seq<Token>): string
  {
    if ts == [] then ""
    else (match ts[0] case Literal(c) => [c] case Escape(hi, lo) => ['%', hi, lo]) + Text(ts[1..])
  }

  function ByteOf(t: Token): char
    requires IsToken(t)
  {
    match t case Literal(c) => c case Escape(hi, lo) => (16 * HexValue(hi) + HexValue(lo)) as char
  }

  /** Every byte has an escape, and it decodes to that byte. */
  lemma EveryByteEscapes(b: nat)
    requires b < 256
    ensures IsToken(Escape(DIGITS[b / 16], DIGITS[b % 16]))
    ensures ByteOf(Escape(DIGITS[b / 16], DIGITS[b % 16])) as int == b
  {
    HexExactly('0');
  }

  function Value(ts: seq<Token>): (v: string)
    requires forall t :: t in ts ==> IsToken(t)
    ensures |v| == |ts|
  {
    if ts == [] then "" else [ByteOf(ts[0])] + Value(ts[1..])
  }

  function Escapes(ts: seq<Token>): nat
  {
    if ts == [] then 0 else (if ts[0].Escape? then 1 else 0) + Escapes(ts[1..])
  }

  // ---------------------------------------------------------------- what the decoder computes

  /** The left-to-right scan: None at the first `%` without two hex digits. */
  function Decode(s: string): Maybe<string>
    decreases |s|
  {
    if s == "" then Some("")
    else if s[0] != '%' then Prepend(s[0], Decode(s[1..]))
    else if |s| < 3 || !IsHex(s[1]) || !IsHex(s[2]) then None
    else Prepend((16 * HexValue(s[1]) + HexValue(s[2])) as char, Decode(s[3..]))
  }

  function Prepend(c: char, r: Maybe<string>): Maybe<string>
  {
    match r case None => None case Some(v) => Some([c] + v)
  }

  /** Whatever way a text was escaped, decoding gives it back, two characters
      shorter for each escape. */
  lemma {:induction false} DecodesEveryEncoding(ts: seq<Token>)
    requires forall t :: t in ts ==> IsToken(t)
    ensures Decode(Text(ts)) == Some(Value(ts))
    ensures |Value(ts)| == |Text(ts)| - 2 * Escapes(ts)
    decreases |ts|
  {
    if ts != [] {
      assert ts[0] in ts;
      DecodesEveryEncoding(ts[1..]);
      var s, rest := Text(ts), Text(ts[1..]);
      match ts[0]
      case Literal(c) => assert s[1..] == rest;
      case Escape(hi, lo) => assert s[3..] == rest;
    }
  }

  /** Only such texts are accepted, and each was escaped in one way only. */
  lemma {:induction false} AcceptsOnlyEncodings(s: string) returns (ts: seq<Token>)
    requires Decode(s).Some?
    ensures (forall t :: t in ts ==> IsToken(t)) && Text(ts) == s && Decode(s) == Some(Value(ts))
    decreases |s|
  {
    if s == "" {
      ts := [];
    } else {
      var t, n := if s[0] != '%' then Literal(s[0]) else Escape(s[1], s[2]), if s[0] != '%' then 1 else 3;
      var rest := AcceptsOnlyEncodings(s[n..]);
      ts := [t] + rest;
      assert ts[1..] == rest;
      assert s == s[..n] + s[n..];
      assert s[..n] == if s[0] != '%' then [s[0]] else ['%', s[1], s[2]];
    }
  }

  lemma {:induction false} EscapedInOneWay(ts: seq<Token>, us: seq<Token>)
    requires (forall t :: t in ts ==> IsToken(t)) && (forall u :: u in us ==> IsToken(u)) && Text(ts) == Text(us)
    ensures ts == us
    decreases |ts|
  {
    if ts != [] && us != [] {
      assert ts[0] in ts && us[0] in us;
      assert Text(ts)[0] == Text(us)[0];
      var n := if ts[0].Literal? then 1 else 3;
      assert ts[0].Escape? ==> Text(ts)[1] == Text(us)[1] && Text(ts)[2] == Text(us)[2];
      assert Text(ts)[n..] == Text(ts[1..]) && Text(us)[n..] == Text(us[1..]);
      EscapedInOneWay(ts[1..], us[1..]);
    }
  }

  // ---------------------------------------------------------------- the decoder

  /** c |= 0x20. */
  function WithBit5(c: char): char
    requires c as int < 256
  {
    if (c as int / 0x20) % 2 == 0 then (c as int + 0x20) as char else c
  }

  predicate IsBytes(s: string) { forall i :: 0 <= i < |s| ==> 0 < s[i] as int < 256 }

  /** HexCharPairToByte on the two characters after a `%`. The second is read
      only if the first is a digit, so never past the terminator. */
  method HexCharPairToByte(s: string, at: nat) returns (ok: bool, byte: int)
    requires IsBytes(s) && at <= |s|
    ensures ok <==> at + 2 <= |s| && IsHex(s[at]) && IsHex(s[at + 1])
    ensures ok ==> byte == 16 * HexValue(s[at]) + HexValue(s[at + 1])
  {
    byte := 0;
    for i := 0 to 2
      invariant at + i <= |s|
      invariant i >= 1 ==> at < |s| && IsHex(s[at]) && byte >= 0
      invariant i == 0 ==> byte == 0
      invariant i == 1 ==> byte == HexValue(s[at])
      invariant i == 2 ==> at + 2 <= |s| && IsHex(s[at + 1]) && byte == 16 * HexValue(s[at]) + HexValue(s[at + 1])
    {
      var code := CharAt(s, at + i);
      if '0' <= code <= '9' {
        byte := byte * 16 + code as int - 0x30;
      } else {
        code := WithBit5(code);
        if 'a' <= code <= 'f' {
          byte := byte * 16 + code as int - 0x57;
        } else {
          return false, byte;
        }
      }
    }
    return true, byte;
  }

  lemma SkipPlain(s: string, i: nat)
    requires i < |s| && s[i] != '%'
    ensures Decode(s[i..]) == Prepend(s[i], Decode(s[i + 1..]))
  {
    assert s[i..][1..] == s[i + 1..];
  }

  lemma SkipEscape(s: string, i: nat)
    requires i < |s| && s[i] == '%'
    ensures var ok := i + 3 <= |s| && IsHex(s[i + 1]) && IsHex(s[i + 2]);
            if ok then
              Decode(s[i..]) == Prepend((16 * HexValue(s[i + 1]) + HexValue(s[i + 2])) as char, Decode(s[i + 3..]))
            else Decode(s[i..]) == None
  {
    if i + 3 <= |s| { assert s[i..][3..] == s[i + 3..] && s[i..][1] == s[i + 1] && s[i..][2] == s[i + 2]; }
  }

  /** What has been decoded, followed by the decoding of the rest. */
  function Joined(done: string, r: Maybe<string>): Maybe<string>
  {
    match r case None => None case Some(v) => Some(done + v)
  }

  lemma JoinedStep(done: string, c: char, r: Maybe<string>)
    ensures Joined(done, Prepend(c, r)) == Joined(done + [c], r)
  {
    if r.Some? { assert done + ([c] + r.value) == done + [c] + r.value; }
  }

  /** Index of the first `%`, or the length. */
  method FindPercent(uri: string) returns (ch: nat)
    ensures ch <= |uri| && (ch < |uri| ==> uri[ch] == '%')
    ensures Decode(uri) == Joined(uri[..ch], Decode(uri[ch..]))
  {
    hide Decode;
    ch := 0;
    assert uri[0..] == uri && uri[..0] == "";
    assert Joined("", Decode(uri)) == Decode(uri) by {
      if Decode(uri).Some? { assert "" + Decode(uri).value == Decode(uri).value; }
    }
    while ch < |uri| && uri[ch] != '%'
      invariant ch <= |uri| && Decode(uri) == Joined(uri[..ch], Decode(uri[ch..]))
    {
      SkipPlain(uri, ch);
      JoinedStep(uri[..ch], uri[ch], Decode(uri[ch + 1..]));
      assert uri[..ch] + [uri[ch]] == uri[..ch + 1];
      ch := ch + 1;
    }
  }

  /** The decoding loop from the first `%` on. Its room check always uses the
      index of that first `%`. */
  method DecodeFrom(uri: string, first: nat, dest: array<char>) returns (ok: bool, d: nat)
    requires IsBytes(uri) && first < |uri| && uri[first] == '%' && dest.Length == |uri| + 1
    requires dest[..first] == uri[..first] && Decode(uri) == Joined(uri[..first], Decode(uri[first..]))
    modifies dest
    ensures d <= |uri|
    ensures Decode(uri) == if ok then Some(dest[..d]) else None
  {
    hide Decode;
    var i, ch: nat := first, first;
    d := first;
    while ch < |uri|
      invariant i <= ch <= |uri| && d <= ch && (i + 3 > |uri| ==> ch == i)
      invariant uri[i] == '%' && Decode(uri) == Joined(dest[..d], Decode(uri[ch..]))
    {
      ghost var done := dest[..d];
      if uri[ch] != '%' {
        SkipPlain(uri, ch);
        JoinedStep(done, uri[ch], Decode(uri[ch + 1..]));
        dest[d] := uri[ch];
        d, ch := d + 1, ch + 1;
        assert dest[..d] == done + [uri[ch - 1]];
        continue;
      }
      SkipEscape(uri, ch);
      if i + 3 > |uri| { return false, d; }
      var hex, byte := HexCharPairToByte(uri, ch + 1);
      if !hex { return false, d; }
      JoinedStep(done, byte as char, Decode(uri[ch + 3..]));
      dest[d] := byte as char;
      d, ch := d + 1, ch + 3;
      assert dest[..d] == done + [byte as char];
    }
    DecodeNothing(uri, dest[..d]);
    dest[d] := NUL;
    return true, d;
  }

  lemma DecodeNothing(s: string, done: string)
    ensures Joined(done, Decode(s[|s|..])) == Some(done)
  {
    assert s[|s|..] == "" && done + "" == done;
  }

  /** The UriDecoder constructor. */
  method UriDecode(uri: string) returns (r: Maybe<string>)
    requires IsBytes(uri)
    ensures r == Decode(uri)
  {
    hide Decode;
    var ch := FindPercent(uri);
    if ch == |uri| {
      DecodeNothing(uri, uri[..ch]);
      assert uri[..ch] == uri;
      return Some(uri);
    }
    var dest := new char[|uri| + 1];
    for k := 0 to ch
      invariant dest[..k] == uri[..k]
    {
      dest[k] := uri[k];
    }
    var ok, d := DecodeFrom(uri, ch, dest);
    r := if ok then Some(dest[..d]) else None;
  }
}
