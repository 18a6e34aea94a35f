/**
 * Ordering of TEXT values under SQLite's default BINARY collation: the two
 * strings are compared character by character and a proper prefix sorts
 * first. Comparing Unicode scalar values by code point agrees with
 * comparing their UTF-8 encodings byte by byte, which is what BINARY does.
 */
module SqliteText {

  /** a <= b in BINARY collation order. */
  predicate TextLe(a: string, b: string)
    decreases |a|
  {
    if a == [] then true
    else if b == [] then false
    else if a[0] != b[0] then a[0] < b[0]
    else TextLe(a[1..], b[1..])
  }

  /** a < b in BINARY collation order. */
  predicate TextLt(a: string, b: string)
  {
    !TextLe(b, a)
  }

  lemma {:induction false} TextLeReflexive(a: string)
    ensures TextLe(a, a)
  {
    if a != [] {
      TextLeReflexive(a[1..]);
    }
  }

  lemma {:induction false} TextLeTotal(a: string, b: string)
    ensures TextLe(a, b) || TextLe(b, a)
  {
    if a != [] && b != [] && a[0] == b[0] {
      TextLeTotal(a[1..], b[1..]);
    }
  }

  lemma {:induction false} TextLeAntisymmetric(a: string, b: string)
    requires TextLe(a, b) && TextLe(b, a)
    ensures a == b
  {
    if a != [] && b != [] {
      TextLeAntisymmetric(a[1..], b[1..]);
      assert a == [a[0]] + a[1..] && b == [b[0]] + b[1..];
    }
  }

  lemma {:induction false} TextLeTransitive(a: string, b: string, c: string)
    requires TextLe(a, b) && TextLe(b, c)
    ensures TextLe(a, c)
  {
    if a != [] && b != [] && c != [] && a[0] == b[0] && b[0] == c[0] {
      TextLeTransitive(a[1..], b[1..], c[1..]);
    }
  }

  /** The strict order is the non-strict one minus equality. */
  lemma TextLtIsStrict(a: string, b: string)
    ensures TextLt(a, b) <==> TextLe(a, b) && a != b
  {
  }
}
