/** The text form of a schedule in the `habits.schedule` column. Writing
    uses `str(list)` in `add_habit` (data/db.py:95) or `json.dumps(list)` in
    `update_habit` (data/db.py:123); for a list of integers both produce the
    same text, "[0, 2, 4]": a JSON array (section 5 of RFC 8259) with ", "
    between elements. Reading uses `json.loads` (data/db.py:177), modelled
    here for arrays of integers (sections 2, 5 and 6 of RFC 8259: whitespace
    around structural characters, an optional minus sign, no leading zeros). */
module ScheduleCodec {
  import opened Wrappers
  import opened Decimal

  datatype DecodeError = NotAnIntegerArray

  /** The four JSON whitespace characters. */
  predicate IsJsonSpace(c: char) {
    c == ' ' || c == '\t' || c == '\n' || c == '\r'
  }

  function EncodeItems(xs: seq<int>): string {
    if xs == [] then []
    else if |xs| == 1 then IntToString(xs[0])
    else IntToString(xs[0]) + ", " + EncodeItems(xs[1..])
  }

  /** `str(xs)`, equal to `json.dumps(xs)` for a list of integers. */
  function Encode(xs: seq<int>): (t: string)
    ensures |t| >= 2 && t[0] == '[' && t[|t| - 1] == ']'
  {
    "[" + EncodeItems(xs) + "]"
  }

  function SkipSpace(s: string): (r: string)
    ensures |r| <= |s| && r == s[|s| - |r|..]
    ensures r == [] || !IsJsonSpace(r[0])
  {
    if s != [] && IsJsonSpace(s[0]) then SkipSpace(s[1..]) else s
  }

  /** A JSON integer without its sign at the front of `s`: either a lone
      '0' or a run of digits not starting with '0'. Returns the value and
      the text after it. */
  function ParseUnsigned(s: string): (r: Result<(nat, string), DecodeError>)
    ensures r.Success? ==> |r.value.1| < |s|
  {
    if s == [] || !IsDigit(s[0]) then Failure(NotAnIntegerArray)
    else
      var k := if s[0] == '0' then 1 else DigitRun(s);
      Success((DigitsValue(s[..k]), s[k..]))
  }

  /** One JSON integer at the front of `s`: an optional '-', then the
      unsigned part. */
  function ParseInt(s: string): (r: Result<(int, string), DecodeError>)
    ensures r.Success? ==> |r.value.1| < |s|
  {
    var negative := s != [] && s[0] == '-';
    var u := ParseUnsigned(if negative then s[1..] else s);
    if u.Failure? then Failure(NotAnIntegerArray)
    else
      var m: int := u.value.0;
      Success((if negative then -m else m, u.value.1))
  }

  /** The elements of a non-empty array, starting at its first element and
      consuming the closing ']'. */
  function ParseElements(s: string): (r: Result<(seq<int>, string), DecodeError>)
    ensures r.Success? ==> |r.value.1| < |s|
    decreases |s|
  {
    var p := ParseInt(s);
    if p.Failure? then Failure(NotAnIntegerArray)
    else
      var t := SkipSpace(p.value.1);
      if t != [] && t[0] == ']' then Success(([p.value.0], t[1..]))
      else if t != [] && t[0] == ',' then
        var q := ParseElements(SkipSpace(t[1..]));
        if q.Failure? then Failure(NotAnIntegerArray)
        else Success(([p.value.0] + q.value.0, q.value.1))
      else Failure(NotAnIntegerArray)
  }

  /** `json.loads(text)` for text that must hold one array of integers and
      nothing else but whitespace. */
  function Decode(text: string): (r: Result<seq<int>, DecodeError>)
    ensures r.Success? ==> SkipSpace(text) != [] && SkipSpace(text)[0] == '['
    ensures SkipSpace(text) == [] ==> r.Failure?
  {
    var t := SkipSpace(text);
    if t == [] || t[0] != '[' then Failure(NotAnIntegerArray)
    else
      var u := SkipSpace(t[1..]);
      if u != [] && u[0] == ']' then
        if SkipSpace(u[1..]) == [] then Success([]) else Failure(NotAnIntegerArray)
      else
        var p := ParseElements(u);
        if p.Success? && SkipSpace(p.value.1) == [] then Success(p.value.0)
        else Failure(NotAnIntegerArray)
  }

  /** The canonical digits of `n` are read back in full, up to the next
      non-digit. */
  lemma {:induction false} ParseUnsignedOfDigits(n: nat, rest: string)
    requires rest == [] || !IsDigit(rest[0])
    ensures ParseUnsigned(NatToDigits(n) + rest) == Success((n, rest))
  {
    var digits := NatToDigits(n);
    var s := digits + rest;
    assert s[0] == digits[0];
    assert s[..|digits|] == digits;
    assert s[|digits|..] == rest;
    if digits[0] == '0' {
      assert |digits| == 1;
    } else {
      DigitRunOfDigits(digits, rest);
    }
  }

  lemma {:induction false} ParseNegative(m: nat, s: string, rest: string)
    requires m > 0 && s == "-" + (NatToDigits(m) + rest)
    requires ParseUnsigned(NatToDigits(m) + rest) == Success((m, rest))
    ensures ParseInt(s) == Success((-(m as int), rest))
  {
    assert s[1..] == NatToDigits(m) + rest;
  }

  lemma {:induction false} ParseNonNegative(m: nat, s: string, rest: string)
    requires s == NatToDigits(m) + rest
    requires ParseUnsigned(s) == Success((m, rest))
    ensures ParseInt(s) == Success((m, rest))
  {
    assert s[0] == NatToDigits(m)[0];
  }

  /** The text of a negative integer is a minus sign and the digits of its
      magnitude. */
  lemma {:induction false} NegativeText(n: int, rest: string)
    requires n < 0
    ensures IntToString(n) + rest == "-" + (NatToDigits(-n) + rest)
  {
  }

  /** The integer's own text is read back in full, up to the next
      non-digit. */
  lemma {:induction false} ParseIntOfString(n: int, rest: string)
    requires rest == [] || !IsDigit(rest[0])
    ensures ParseInt(IntToString(n) + rest) == Success((n, rest))
  {
    if n < 0 {
      ParseUnsignedOfDigits(-n, rest);
      NegativeText(n, rest);
      ParseNegative(-n, IntToString(n) + rest, rest);
    } else {
      ParseUnsignedOfDigits(n, rest);
      ParseNonNegative(n, IntToString(n) + rest, rest);
    }
  }

  lemma {:induction false} SkipSpaceNone(s: string)
    requires s != [] && !IsJsonSpace(s[0])
    ensures SkipSpace(s) == s
  {
  }

  /** An element followed by ']' closes the array. */
  lemma {:induction false} ParseElementsLast(s: string, v: int, tail: string)
    requires ParseInt(s) == Success((v, "]" + tail))
    ensures ParseElements(s) == Success(([v], tail))
  {
    SkipSpaceNone("]" + tail);
    assert ("]" + tail)[1..] == tail;
  }

  /** An element followed by ", " continues with the next element. */
  lemma {:induction false} ParseElementsMore(s: string, v: int, more: string)
    requires ParseInt(s) == Success((v, ", " + more))
    requires more != [] && !IsJsonSpace(more[0])
    ensures ParseElements(more).Success? ==>
      ParseElements(s) == Success(([v] + ParseElements(more).value.0, ParseElements(more).value.1))
  {
    SkipSpaceNone(", " + more);
    CommaSpace(more);
    SkipSpaceNone(more);
  }

  lemma {:induction false} CommaSpace(more: string)
    requires more != [] && !IsJsonSpace(more[0])
    ensures (", " + more)[0] == ',' && (", " + more)[1..] == " " + more
    ensures SkipSpace(" " + more) == more
  {
    assert (" " + more)[1..] == more;
    SkipSpaceNone(more);
  }

  lemma {:induction false} EncodeItemsSingle(x: int, tail: string)
    ensures EncodeItems([x]) + "]" + tail == IntToString(x) + ("]" + tail)
  {
  }

  lemma {:induction false} EncodeItemsHead(xs: seq<int>)
    requires xs != []
    ensures |EncodeItems(xs)| >= 1 && EncodeItems(xs)[0] == IntToString(xs[0])[0]
  {
  }

  lemma {:induction false} Regroup(a: string, b: string, tail: string)
    requires b != []
    ensures a + ", " + b + "]" + tail == a + (", " + (b + "]" + tail))
    ensures (b + "]" + tail)[0] == b[0]
  {
  }

  lemma {:induction false} EncodeItemsCons(xs: seq<int>, tail: string)
    requires |xs| >= 2
    ensures EncodeItems(xs) + "]" + tail == IntToString(xs[0]) + (", " + (EncodeItems(xs[1..]) + "]" + tail))
    ensures (EncodeItems(xs[1..]) + "]" + tail)[0] == IntToString(xs[1])[0]
  {
    EncodeItemsHead(xs[1..]);
    Regroup(IntToString(xs[0]), EncodeItems(xs[1..]), tail);
  }

  lemma {:induction false} ParseOneElement(x: int, tail: string)
    ensures ParseElements(EncodeItems([x]) + "]" + tail) == Success(([x], tail))
  {
    EncodeItemsSingle(x, tail);
    ParseIntOfString(x, "]" + tail);
    ParseElementsLast(IntToString(x) + ("]" + tail), x, tail);
  }

  /** The text of an integer starts with a digit or a minus sign. */
  lemma {:induction false} IntToStringStart(n: int)
    ensures IsDigit(IntToString(n)[0]) || IntToString(n)[0] == '-'
  {
    if n >= 0 {
      assert IntToString(n)[0] in IntToString(n);
    }
  }

  lemma {:induction false} ParseCons(s: string, x: int, more: string, rest: seq<int>, tail: string)
    requires s == IntToString(x) + (", " + more)
    requires more != [] && !IsJsonSpace(more[0])
    requires ParseElements(more) == Success((rest, tail))
    ensures ParseElements(s) == Success(([x] + rest, tail))
  {
    ParseIntOfString(x, ", " + more);
    ParseElementsMore(s, x, more);
  }

  /** The encoding of two or more elements is the first element, ", " and
      the encoding of the rest, which starts with a digit or a minus sign. */
  lemma {:induction false} NextElementShape(xs: seq<int>, tail: string)
    requires |xs| >= 2
    ensures EncodeItems(xs) + "]" + tail == IntToString(xs[0]) + (", " + (EncodeItems(xs[1..]) + "]" + tail))
    ensures EncodeItems(xs[1..]) + "]" + tail != []
    ensures !IsJsonSpace((EncodeItems(xs[1..]) + "]" + tail)[0])
  {
    EncodeItemsCons(xs, tail);
    IntToStringStart(xs[1]);
  }

  lemma {:induction false} ParseNextElement(xs: seq<int>, tail: string)
    requires |xs| >= 2
    requires ParseElements(EncodeItems(xs[1..]) + "]" + tail) == Success((xs[1..], tail))
    ensures ParseElements(EncodeItems(xs) + "]" + tail) == Success((xs, tail))
  {
    NextElementShape(xs, tail);
    ParseConsList(EncodeItems(xs) + "]" + tail, EncodeItems(xs[1..]) + "]" + tail, xs, tail);
  }

  lemma {:induction false} ParseConsList(s: string, more: string, xs: seq<int>, tail: string)
    requires xs != [] && s == IntToString(xs[0]) + (", " + more)
    requires more != [] && !IsJsonSpace(more[0])
    requires ParseElements(more) == Success((xs[1..], tail))
    ensures ParseElements(s) == Success((xs, tail))
  {
    ParseCons(s, xs[0], more, xs[1..], tail);
    ConsBack(xs);
  }

  lemma {:induction false} ConsBack(xs: seq<int>)
    requires xs != []
    ensures [xs[0]] + xs[1..] == xs
  {
  }

  lemma {:induction false} ParseElementsOfEncoding(xs: seq<int>, tail: string)
    requires xs != []
    ensures ParseElements(EncodeItems(xs) + "]" + tail) == Success((xs, tail))
    decreases |xs|
  {
    if |xs| == 1 {
      ParseOneElement(xs[0], tail);
      assert [xs[0]] == xs;
    } else {
      ParseElementsOfEncoding(xs[1..], tail);
      ParseNextElement(xs, tail);
    }
  }

  /** `Decode` on a text that opens an array right away and whose
      elements parse up to the end. */
  lemma {:induction false} DecodeElements(text: string, u: string, xs: seq<int>)
    requires text != [] && !IsJsonSpace(text[0]) && text[0] == '['
    requires SkipSpace(text[1..]) == u && u != [] && u[0] != ']'
    requires ParseElements(u) == Success((xs, []))
    ensures Decode(text) == Success(xs)
  {
    SkipSpaceNone(text);
    assert SkipSpace([]) == [];
  }

  lemma {:induction false} Brackets(b: string)
    ensures ("[" + b + "]")[1..] == b + "]" && ("[" + b + "]")[0] == '['
  {
  }

  lemma {:induction false} DecodeShape(b: string, xs: seq<int>)
    requires b != [] && !IsJsonSpace(b[0]) && b[0] != ']'
    requires ParseElements(b + "]") == Success((xs, []))
    ensures Decode("[" + b + "]") == Success(xs)
  {
    var t := "[" + b + "]";
    Brackets(b);
    assert SkipSpace(t[1..]) == b + "]" && (b + "]")[0] == b[0] by {
      SkipSpaceNone(b + "]");
    }
    DecodeElements(t, b + "]", xs);
  }

  lemma {:induction false} DecodeEmpty()
    ensures Decode(Encode([])) == Success([])
  {
    assert Encode([]) == "[]";
    SkipSpaceNone("[]");
    assert "[]"[1..] == "]";
    SkipSpaceNone("]");
    assert "]"[1..] == [];
  }

  lemma {:induction false} NoTail(t: string)
    ensures t + [] == t
  {
  }

  /** Reading back what was written gives the same list, for every list of
      integers, the empty one included. */
  lemma {:induction false} DecodeEncode(xs: seq<int>)
    ensures Decode(Encode(xs)) == Success(xs)
  {
    if xs == [] {
      DecodeEmpty();
    } else {
      var b := EncodeItems(xs);
      EncodeItemsHead(xs);
      ParseElementsOfEncoding(xs, []);
      NoTail(b + "]");
      DecodeShape(b, xs);
    }
  }
}
