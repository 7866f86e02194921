/** Byte strings and their order. */
module Texts {
  import opened Sequences

  type Text = seq<byte>

  /** The bytes of an ASCII string. */
  function Ascii(s: string): Text {
    seq(|s|, i requires 0 <= i < |s| => (s[i] as int % 256) as byte)
  }

  /** Byte-wise lexicographic order. */
  predicate Less(a: Text, b: Text) {
    if b == [] then false
    else if a == [] then true
    else if a[0] != b[0] then a[0] < b[0]
    else Less(a[1..], b[1..])
  }

  lemma {:induction false} LessIrreflexive(a: Text)
    ensures !Less(a, a)
  {
    if a != [] {
      LessIrreflexive(a[1..]);
    }
  }

  lemma {:induction false} LessTransitive(a: Text, b: Text, c: Text)
    requires Less(a, b) && Less(b, c)
    ensures Less(a, c)
  {
    if a != [] && a[0] == b[0] == c[0] {
      LessTransitive(a[1..], b[1..], c[1..]);
    }
  }

  lemma {:induction false} LessTotal(a: Text, b: Text)
    ensures a == b || Less(a, b) || Less(b, a)
  {
    if a != [] && b != [] && a[0] == b[0] {
      LessTotal(a[1..], b[1..]);
      assert a == [a[0]] + a[1..] && b == [b[0]] + b[1..];
    }
  }

  lemma LessAsymmetric(a: Text, b: Text)
    ensures !(Less(a, b) && Less(b, a))
  {
    LessIrreflexive(a);
    if Less(a, b) && Less(b, a) {
      LessTransitive(a, b, a);
    }
  }

  /** Texts that do not go down from a to b to c do not go down from a to c. */
  lemma LessNegative(a: Text, b: Text, c: Text)
    ensures !Less(a, b) && !Less(b, c) ==> !Less(a, c) && (a == c ==> a == b == c)
  {
    LessTotal(a, b);
    LessTotal(b, c);
    LessAsymmetric(a, c);
    LessAsymmetric(b, c);
    if Less(b, a) && Less(c, b) {
      LessTransitive(c, b, a);
    }
  }
}
