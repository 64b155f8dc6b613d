/** What several parts of the model share. */
module Basics {

  datatype Maybe<+T> = None | Some(value: T)

  const NUL: char := '\0'

  /** The C string view: reading at the length gives the terminator. */
  function CharAt(s: string, i: nat): char
    requires i <= |s|
  {
    if i < |s| then s[i] else NUL
  }

  lemma {:induction false} TimesMonotone(a: nat, b: nat, k: nat)
    requires a <= b
    ensures a * k <= b * k
    decreases b
  {
    if a < b {
      TimesMonotone(a, b - 1, k);
      assert b * k == (b - 1) * k + k;
    }
  }
}
