/** The order SQLite's default BINARY collation puts on TEXT values: strings
    compared character by character (UTF-8 byte order agrees with code point
    order), a proper prefix sorting first. */
module TextOrder {

  predicate LexLe(a: string, b: string) {
    a == [] || (b != [] && (a[0] < b[0] || (a[0] == b[0] && LexLe(a[1..], b[1..]))))
  }

  lemma {:induction false} LexLeReflexive(a: string)
    ensures LexLe(a, a)
  {
    if a != [] {
      LexLeReflexive(a[1..]);
    }
  }

  lemma {:induction false} LexLeTotal(a: string, b: string)
    ensures LexLe(a, b) || LexLe(b, a)
  {
    if a != [] && b != [] && a[0] == b[0] {
      LexLeTotal(a[1..], b[1..]);
    }
  }

  lemma {:induction false} LexLeAntisymmetric(a: string, b: string)
    requires LexLe(a, b) && LexLe(b, a)
    ensures a == b
  {
    if a != [] && b != [] {
      LexLeAntisymmetric(a[1..], b[1..]);
      assert a == [a[0]] + a[1..] && b == [b[0]] + b[1..];
    }
  }

  lemma {:induction false} LexLeTransitive(a: string, b: string, c: string)
    requires LexLe(a, b) && LexLe(b, c)
    ensures LexLe(a, c)
  {
    if a != [] && a[0] == b[0] && b[0] == c[0] {
      LexLeTransitive(a[1..], b[1..], c[1..]);
    }
  }

  /** Comparing two strings that start with blocks of the same width is
      comparing the blocks first and, on a tie, what follows them. */
  lemma {:induction false} LexLeBlocks(x1: string, y1: string, x2: string, y2: string)
    requires |x1| == |x2|
    ensures LexLe(x1 + y1, x2 + y2) <==> (x1 != x2 && LexLe(x1, x2)) || (x1 == x2 && LexLe(y1, y2))
  {
    if x1 != [] {
      assert (x1 + y1)[1..] == x1[1..] + y1;
      assert (x2 + y2)[1..] == x2[1..] + y2;
      assert (x1 + y1)[0] == x1[0] && (x2 + y2)[0] == x2[0];
      LexLeBlocks(x1[1..], y1, x2[1..], y2);
      assert x1 == [x1[0]] + x1[1..] && x2 == [x2[0]] + x2[1..];
      assert x1 == x2 <==> x1[0] == x2[0] && x1[1..] == x2[1..];
    } else {
      assert x1 + y1 == y1 && x2 + y2 == y2;
    }
  }
}
