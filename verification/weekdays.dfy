/** The weekday-schedule parser `parse_weekdays` (bot.py:69-113): free text
    such as "пн, ср, пт" or "0,2,4" becomes a sorted list of distinct
    weekdays, 0 = Monday .. 6 = Sunday. Input is taken as already lowercased
    (`input_text.lower()`), and digits and whitespace are the ASCII ones. */
module Weekdays {
  import opened Wrappers
  import opened Decimal
  import Seqs

  datatype ParseError =
    | EmptyInput                       // nothing left after stripping whitespace
    | NumberOutOfRange(token: string)  // a digit token above 7
    | UnknownDay(token: string)        // a word outside the vocabulary
    | NoDays                           // no token at all between the separators

  /** The six ASCII whitespace characters: space, tab, line feed, vertical
      tab, form feed, carriage return. Python's `str.strip()` and the regex
      class `\s` also count \x1c-\x1f, \x85, \xa0 and the other Unicode
      spaces; the model leaves those out. */
  predicate IsSpace(c: char) {
    c == ' ' || '\t' <= c <= '\r'
  }

  /** The separator class `[,\s;]` of the split. */
  predicate IsSeparator(c: char) {
    c == ',' || c == ';' || IsSpace(c)
  }

  /** The three character classes the parser strips or splits on. */
  datatype CharClass = Space | Separator | Dot

  predicate In(c: char, k: CharClass) {
    match k
    case Space => IsSpace(c)
    case Separator => IsSeparator(c)
    case Dot => c == '.'
  }

  predicate NoSeparator(t: string) {
    forall i :: 0 <= i < |t| ==> !IsSeparator(t[i])
  }

  predicate StrictlyIncreasing(xs: seq<int>) {
    forall i, j :: 0 <= i < j < |xs| ==> xs[i] < xs[j]
  }

  /** `s` without its longest prefix of characters of class `k`. */
  function DropLeading(s: string, k: CharClass): (r: string)
    ensures |r| <= |s| && r == s[|s| - |r|..]
    ensures forall i :: 0 <= i < |s| - |r| ==> In(s[i], k)
    ensures r == [] || !In(r[0], k)
  {
    if s != [] && In(s[0], k) then
      var r := DropLeading(s[1..], k);
      assert forall i :: 1 <= i < |s| - |r| ==> s[i] == s[1..][i - 1];
      r
    else s
  }

  /** `s` without its longest suffix of characters of class `k`
      (Python's `rstrip`). */
  function DropTrailing(s: string, k: CharClass): (r: string)
    ensures |r| <= |s| && r == s[..|r|]
    ensures forall i :: |r| <= i < |s| ==> In(s[i], k)
    ensures r == [] || !In(r[|r| - 1], k)
  {
    if s != [] && In(s[|s| - 1], k) then DropTrailing(s[..|s| - 1], k) else s
  }

  /** `str.strip()`: whitespace removed at both ends and nowhere else. */
  function Strip(s: string): (r: string)
    ensures |r| <= |s| && forall i :: 0 <= i < |r| ==> r[i] in s
    ensures r == [] || (!IsSpace(r[0]) && !IsSpace(r[|r| - 1]))
    ensures Without(r, Space) == Without(s, Space)
    ensures (s == [] || (!IsSpace(s[0]) && !IsSpace(s[|s| - 1]))) ==> r == s
    ensures exists i, j :: StrippedAt(s, r, i, j)
  {
    StripKeepsCharacters(s);
    StripEnds(s);
    StripKeepsContent(s);
    StripIsSlice(s);
    DropTrailing(DropLeading(s, Space), Space)
  }

  lemma StripIsSlice(s: string)
    ensures exists i, j :: StrippedAt(s, DropTrailing(DropLeading(s, Space), Space), i, j)
  {
    var l := DropLeading(s, Space);
    var r := DropTrailing(l, Space);
    assert |l| <= |s| && l == s[|s| - |l|..] by {}
    assert forall k :: 0 <= k < |s| - |l| ==> In(s[k], Space) by {}
    assert |r| <= |l| && r == l[..|r|] by {}
    assert forall k :: |r| <= k < |l| ==> In(l[k], Space) by {}
    SliceOfSlice(s, l, r);
  }

  /** `r` is the slice `s[i..j]`, and everything outside it is whitespace. */
  predicate StrippedAt(s: string, r: string, i: int, j: int) {
    0 <= i <= j <= |s| && r == s[i..j] &&
    (forall k :: 0 <= k < i ==> IsSpace(s[k])) &&
    (forall k :: j <= k < |s| ==> IsSpace(s[k]))
  }

  /** A suffix after leading whitespace, cut before trailing whitespace. */
  lemma SliceOfSlice(s: string, l: string, r: string)
    requires |l| <= |s| && l == s[|s| - |l|..] && forall k :: 0 <= k < |s| - |l| ==> In(s[k], Space)
    requires |r| <= |l| && r == l[..|r|] && forall k :: |r| <= k < |l| ==> In(l[k], Space)
    ensures exists i, j :: StrippedAt(s, r, i, j)
  {
    var i := |s| - |l|;
    assert StrippedAt(s, r, i, i + |r|) by {
      forall k | i + |r| <= k < |s|
        ensures IsSpace(s[k])
      {
        assert s[k] == l[k - i] && In(l[k - i], Space);
      }
    }
  }

  lemma StripKeepsContent(s: string)
    ensures Without(DropTrailing(DropLeading(s, Space), Space), Space) == Without(s, Space)
  {
    WithoutDropLeading(s, Space);
    WithoutDropTrailing(DropLeading(s, Space), Space);
  }

  lemma StripKeepsCharacters(s: string)
    ensures var r := DropTrailing(DropLeading(s, Space), Space);
      |r| <= |s| && forall i :: 0 <= i < |r| ==> r[i] in s
  {
    var l := DropLeading(s, Space);
    var r := DropTrailing(l, Space);
    SliceChars(s, |s| - |l|, |s|);
    SliceChars(l, 0, |r|);
    forall i | 0 <= i < |r|
      ensures r[i] in s
    {
      assert r[i] in r;
    }
  }

  /** Every character of a slice occurs in the whole. */
  lemma SliceChars(s: string, lo: int, hi: int)
    requires 0 <= lo <= hi <= |s|
    ensures forall c :: c in s[lo..hi] ==> c in s
  {
    forall c | c in s[lo..hi]
      ensures c in s
    {
      var i :| 0 <= i < hi - lo && s[lo..hi][i] == c;
      assert s[lo + i] == c;
    }
  }

  lemma StripEnds(s: string)
    ensures var r := DropTrailing(DropLeading(s, Space), Space);
      r == [] || (!IsSpace(r[0]) && !IsSpace(r[|r| - 1]))
    ensures (s == [] || (!IsSpace(s[0]) && !IsSpace(s[|s| - 1]))) ==>
      DropTrailing(DropLeading(s, Space), Space) == s
  {
    var l := DropLeading(s, Space);
    var r := DropTrailing(l, Space);
    if r != [] {
      assert r[0] == l[0];
    }
  }

  /** The characters of `s` not of class `k`, in order. */
  function Without(s: string, k: CharClass): string {
    if s == [] then [] else (if In(s[0], k) then [] else [s[0]]) + Without(s[1..], k)
  }

  function Concat(parts: seq<string>): string {
    if parts == [] then [] else parts[0] + Concat(parts[1..])
  }

  lemma {:induction false} WithoutDropLeading(s: string, k: CharClass)
    ensures Without(DropLeading(s, k), k) == Without(s, k)
  {
    if s != [] && In(s[0], k) {
      WithoutDropLeading(s[1..], k);
    }
  }

  lemma {:induction false} WithoutAppend(a: string, b: string, k: CharClass)
    ensures Without(a + b, k) == Without(a, k) + Without(b, k)
  {
    if a != [] {
      assert (a + b)[1..] == a[1..] + b;
      WithoutAppend(a[1..], b, k);
    } else {
      assert a + b == b;
    }
  }

  lemma {:induction false} WithoutDropTrailing(s: string, k: CharClass)
    ensures Without(DropTrailing(s, k), k) == Without(s, k)
  {
    if s != [] && In(s[|s| - 1], k) {
      var init := s[..|s| - 1];
      WithoutDropTrailing(init, k);
      assert s == init + [s[|s| - 1]];
      WithoutAppend(init, [s[|s| - 1]], k);
      assert Without([s[|s| - 1]], k) == [];
    }
  }

  /** `re.split(r"[,\s;]+", s)` continued from a piece `cur` already begun:
      every maximal run of separators ends a piece, so a piece may be empty
      only at the two ends. */
  function SplitFrom(s: string, cur: string): (parts: seq<string>)
    requires NoSeparator(cur)
    ensures |parts| >= 1
    ensures forall i :: 0 <= i < |parts| ==> NoSeparator(parts[i])
    ensures Concat(parts) == cur + Without(s, Separator)
    decreases |s|
  {
    if s == [] then
      SplitEnd(cur);
      [cur]
    else if IsSeparator(s[0]) then
      var rest := SplitFrom(DropLeading(s, Separator), []);
      SplitBreak(s, cur, rest);
      [cur] + rest
    else
      SplitStep(s, cur);
      SplitFrom(s[1..], cur + [s[0]])
  }

  lemma SplitEnd(cur: string)
    requires NoSeparator(cur)
    ensures forall i :: 0 <= i < |[cur]| ==> NoSeparator([cur][i])
    ensures Concat([cur]) == cur + Without([], Separator)
  {
    assert Concat([cur]) == cur + Concat([]);
  }

  /** A run of separators closes the current piece; the pieces after it are
      those of the text that follows the run. */
  lemma SplitBreak(s: string, cur: string, rest: seq<string>)
    requires NoSeparator(cur) && s != [] && IsSeparator(s[0])
    requires forall i :: 0 <= i < |rest| ==> NoSeparator(rest[i])
    requires Concat(rest) == [] + Without(DropLeading(s, Separator), Separator)
    ensures forall i :: 0 <= i < |[cur] + rest| ==> NoSeparator(([cur] + rest)[i])
    ensures Concat([cur] + rest) == cur + Without(s, Separator)
  {
    WithoutDropLeading(s, Separator);
    assert ([cur] + rest)[1..] == rest;
    assert [] + Without(s, Separator) == Without(s, Separator);
    forall i | 0 <= i < |[cur] + rest| ensures NoSeparator(([cur] + rest)[i]) {
      if i > 0 {
        assert ([cur] + rest)[i] == rest[i - 1];
      }
    }
  }

  /** A character that is not a separator extends the current piece. */
  lemma SplitStep(s: string, cur: string)
    requires NoSeparator(cur) && s != [] && !IsSeparator(s[0])
    ensures NoSeparator(cur + [s[0]])
    ensures (cur + [s[0]]) + Without(s[1..], Separator) == cur + Without(s, Separator)
  {
    NoSeparatorSnoc(cur, s[0]);
    WithoutKeeps(s, Separator);
    AppendAssoc(cur, [s[0]], Without(s[1..], Separator));
  }

  lemma NoSeparatorSnoc(cur: string, c: char)
    requires NoSeparator(cur) && !IsSeparator(c)
    ensures NoSeparator(cur + [c])
  {
    assert forall i :: 0 <= i < |cur| ==> (cur + [c])[i] == cur[i];
  }

  lemma WithoutKeeps(s: string, k: CharClass)
    requires s != [] && !In(s[0], k)
    ensures Without(s, k) == [s[0]] + Without(s[1..], k)
  {
  }

  lemma AppendAssoc(a: string, b: string, c: string)
    ensures (a + b) + c == a + (b + c)
  {
  }

  /** `re.split(r"[,\s;]+", s)`: the pieces between maximal separator runs.
      Only the first and the last piece can be empty (when `s` starts or ends
      with a separator), and the pieces glued back with their runs give `s`. */
  function Split(s: string): (parts: seq<string>)
    ensures |parts| >= 1
    ensures forall i :: 0 <= i < |parts| ==> NoSeparator(parts[i])
    ensures Concat(parts) == Without(s, Separator)
    ensures forall i :: 0 < i < |parts| - 1 ==> parts[i] != []
    ensures exists seps :: Rebuilds(parts, seps, s)
  {
    SplitInterior(s, []);
    SplitRebuilds(s, []);
    assert [] + s == s;
    SplitFrom(s, [])
  }

  /** A non-empty run of separators. */
  predicate SeparatorRun(t: string) {
    t != [] && forall i :: 0 <= i < |t| ==> IsSeparator(t[i])
  }

  /** The pieces interleaved with the runs between them. */
  function Join(parts: seq<string>, seps: seq<string>): string
    requires |parts| == |seps| + 1
    decreases |seps|
  {
    if seps == [] then parts[0] else parts[0] + seps[0] + Join(parts[1..], seps[1..])
  }

  /** `text` is `parts` glued back with the separator runs `seps`. */
  predicate Rebuilds(parts: seq<string>, seps: seq<string>, text: string) {
    |parts| == |seps| + 1 &&
    (forall i :: 0 <= i < |seps| ==> SeparatorRun(seps[i])) &&
    Join(parts, seps) == text
  }

  lemma JoinCons(p: string, rest: seq<string>, sep: string, seps: seq<string>)
    requires |rest| == |seps| + 1
    ensures Join([p] + rest, [sep] + seps) == p + sep + Join(rest, seps)
  {
    assert ([p] + rest)[1..] == rest;
    assert ([sep] + seps)[1..] == seps;
  }

  /** The leading run of separators of `s` and what follows it. */
  lemma LeadingRun(s: string)
    requires s != [] && IsSeparator(s[0])
    ensures var t := DropLeading(s, Separator);
      |t| < |s| && SeparatorRun(s[..|s| - |t|]) && s == s[..|s| - |t|] + t
  {
    RunThenRest(s, DropLeading(s, Separator));
  }

  lemma RunThenRest(s: string, t: string)
    requires s != [] && IsSeparator(s[0])
    requires |t| <= |s| && t == s[|s| - |t|..]
    requires forall i :: 0 <= i < |s| - |t| ==> In(s[i], Separator)
    requires t == [] || !In(t[0], Separator)
    ensures |t| < |s| && SeparatorRun(s[..|s| - |t|]) && s == s[..|s| - |t|] + t
  {
    var n := |s| - |t|;
    assert forall i :: 0 <= i < n ==> s[..n][i] == s[i];
  }

  /** One more piece in front, after a run of separators. */
  lemma RebuildsCons(p: string, run: string, rest: seq<string>, seps: seq<string>, t: string)
    requires SeparatorRun(run) && Rebuilds(rest, seps, t)
    ensures Rebuilds([p] + rest, [run] + seps, p + (run + t))
  {
    JoinCons(p, rest, run, seps);
    AppendAssoc(p, run, t);
    forall i | 0 < i < |[run] + seps| ensures SeparatorRun(([run] + seps)[i]) {
      assert ([run] + seps)[i] == seps[i - 1];
    }
  }

  lemma {:induction false} SplitRebuilds(s: string, cur: string)
    requires NoSeparator(cur)
    ensures exists seps :: Rebuilds(SplitFrom(s, cur), seps, cur + s)
    decreases |s|
  {
    var parts := SplitFrom(s, cur);
    if s == [] {
      assert parts == [cur];
      assert Rebuilds(parts, [], cur + s);
    } else if IsSeparator(s[0]) {
      var t := DropLeading(s, Separator);
      var rest := SplitFrom(t, []);
      assert parts == [cur] + rest;
      SplitRebuilds(t, []);
      var seps :| Rebuilds(rest, seps, [] + t);
      LeadingRun(s);
      var run := s[..|s| - |t|];
      assert [] + t == t;
      RebuildsCons(cur, run, rest, seps, t);
      assert cur + (run + t) == cur + s;
      assert Rebuilds(parts, [run] + seps, cur + s);
    } else {
      SplitStep(s, cur);
      assert parts == SplitFrom(s[1..], cur + [s[0]]);
      SplitRebuilds(s[1..], cur + [s[0]]);
      assert (cur + [s[0]]) + s[1..] == cur + s by {
        AppendAssoc(cur, [s[0]], s[1..]);
        assert [s[0]] + s[1..] == s;
      }
    }
  }

  /** No empty piece between two separator runs; the first piece is
      non-empty once it has a character. */
  lemma {:induction false} SplitInterior(s: string, cur: string)
    requires NoSeparator(cur)
    ensures var parts := SplitFrom(s, cur);
      forall i :: 0 < i < |parts| - 1 ==> parts[i] != []
    ensures cur != [] || (s != [] && !IsSeparator(s[0])) ==> SplitFrom(s, cur)[0] != []
    decreases |s|
  {
    var parts := SplitFrom(s, cur);
    if s == [] {
      assert parts == [cur];
    } else if IsSeparator(s[0]) {
      var t := DropLeading(s, Separator);
      var rest := SplitFrom(t, []);
      assert parts == [cur] + rest;
      SplitInterior(t, []);
      forall i | 0 < i < |parts| - 1 ensures parts[i] != [] {
        assert parts[i] == rest[i - 1];
      }
    } else {
      SplitStep(s, cur);
      assert parts == SplitFrom(s[1..], cur + [s[0]]);
      SplitInterior(s[1..], cur + [s[0]]);
    }
  }

  /** The day-name vocabulary: two- and three- or four-letter abbreviations
      and full Russian names. */
  const Vocabulary: map<string, int> := map[
    "пн" := 0, "пон" := 0, "понедельник" := 0,
    "вт" := 1, "втор" := 1, "вторник" := 1,
    "ср" := 2, "сред" := 2, "среда" := 2,
    "чт" := 3, "чет" := 3, "четверг" := 3,
    "пт" := 4, "пят" := 4, "пятница" := 4,
    "сб" := 5, "суб" := 5, "суббота" := 5,
    "вс" := 6, "воск" := 6, "воскресенье" := 6
  ]

  /** One non-empty token. A digit string is read as a number: 0..6 stand
      for themselves and, since 1..6 are caught by that first range, only 7
      reaches the 1-based branch and becomes 6. Any other token loses its
      trailing dots and is looked up in the vocabulary. */
  function ParseToken(p: string): (r: Result<int, ParseError>)
    requires p != []
    ensures r.Success? ==> 0 <= r.value <= 6
    ensures r.Failure? ==> r.error == NumberOutOfRange(p) || r.error == UnknownDay(p)
    ensures AllDigits(p) ==> (r.Failure? <==> DigitsValue(p) > 7)
    ensures AllDigits(p) && DigitsValue(p) <= 6 ==> r == Success(DigitsValue(p))
    ensures AllDigits(p) && DigitsValue(p) == 7 ==> r == Success(6)
    ensures AllDigits(p) && r.Failure? ==> r.error == NumberOutOfRange(p)
    ensures !AllDigits(p) ==> (r.Success? <==> DropTrailing(p, Dot) in Vocabulary)
    ensures !AllDigits(p) && r.Success? ==> r.value == Vocabulary[DropTrailing(p, Dot)]
    ensures !AllDigits(p) && r.Failure? ==> r.error == UnknownDay(p)
  {
    if AllDigits(p) then
      var n := DigitsValue(p);
      if 0 <= n <= 6 then Success(n)
      else if 1 <= n <= 7 then Success(n - 1)
      else Failure(NumberOutOfRange(p))
    else
      var stem := DropTrailing(p, Dot);
      if stem in Vocabulary then Success(Vocabulary[stem]) else Failure(UnknownDay(p))
  }

  /** A piece of the split the parser accepts: empty pieces are skipped. */
  ghost predicate GoodPart(p: string) {
    p == [] || ParseToken(p).Success?
  }

  ghost predicate AllGood(parts: seq<string>) {
    forall i :: 0 <= i < |parts| ==> GoodPart(parts[i])
  }

  /** `i` is the first non-empty piece the parser rejects. */
  ghost predicate FirstBad(parts: seq<string>, i: int) {
    && 0 <= i < |parts| && parts[i] != [] && ParseToken(parts[i]).Failure?
    && forall j :: 0 <= j < i ==> GoodPart(parts[j])
  }

  /** The weekdays the non-empty accepted pieces denote. */
  ghost function PartDays(parts: seq<string>): set<int> {
    set i | 0 <= i < |parts| && parts[i] != [] && ParseToken(parts[i]).Success? :: ParseToken(parts[i]).value
  }

  lemma PartDaysCons(parts: seq<string>)
    requires parts != []
    ensures PartDays(parts) ==
      (if parts[0] != [] && ParseToken(parts[0]).Success? then {ParseToken(parts[0]).value} else {})
      + PartDays(parts[1..])
  {
    var tail := parts[1..];
    forall d | d in PartDays(tail)
      ensures d in PartDays(parts)
    {
      var i :| 0 <= i < |tail| && tail[i] != [] && ParseToken(tail[i]).Success? && ParseToken(tail[i]).value == d;
      assert parts[i + 1] == tail[i];
    }
    forall d | d in PartDays(parts)
      ensures d in PartDays(tail) || (parts[0] != [] && ParseToken(parts[0]) == Success(d))
    {
      var i :| 0 <= i < |parts| && parts[i] != [] && ParseToken(parts[i]).Success? && ParseToken(parts[i]).value == d;
      if i > 0 {
        assert tail[i - 1] == parts[i];
      }
    }
  }

  lemma PartDaysAreWeekdays(parts: seq<string>)
    ensures forall d :: d in PartDays(parts) ==> 0 <= d <= 6
  {
  }

  /** How goodness and the first bad piece of `parts` follow from those of
      its tail. */
  lemma GoodShift(parts: seq<string>)
    requires parts != []
    ensures AllGood(parts) <==> GoodPart(parts[0]) && AllGood(parts[1..])
    ensures forall i :: GoodPart(parts[0]) && FirstBad(parts[1..], i) ==> FirstBad(parts, i + 1)
    ensures forall e :: parts[0] != [] && ParseToken(parts[0]) == Failure(e) ==> FirstBad(parts, 0)
    ensures forall i :: GoodPart(parts[0]) && FirstBad(parts[1..], i) ==> parts[1..][i] == parts[i + 1]
  {
    assert forall i :: 1 <= i < |parts| ==> parts[1..][i - 1] == parts[i];
  }

  /** The loop over the pieces: the days of the accepted tokens are added to
      `acc`, and the first bad token aborts the whole parse. */
  function CollectDays(parts: seq<string>, acc: set<int>): (r: Result<set<int>, ParseError>)
    ensures r.Success? <==> AllGood(parts)
    ensures r.Success? ==> r.value == acc + PartDays(parts)
    ensures r.Failure? ==> r.error.NumberOutOfRange? || r.error.UnknownDay?
    ensures r.Failure? ==> exists i :: FirstBad(parts, i) && ParseToken(parts[i]) == Failure(r.error)
    decreases |parts|
  {
    if parts == [] then
      Success(acc)
    else
      PartDaysCons(parts);
      GoodShift(parts);
      if parts[0] == [] then
        CollectDays(parts[1..], acc)
      else
        match ParseToken(parts[0])
        case Failure(e) => Failure(e)
        case Success(d) => CollectDays(parts[1..], acc + {d})
  }

  /** The members of `days` in `from..6`, in increasing order. */
  function Ascending(days: set<int>, from: int): (r: seq<int>)
    requires 0 <= from <= 7
    ensures StrictlyIncreasing(r)
    ensures forall i :: 0 <= i < |r| ==> from <= r[i] <= 6
    ensures forall x :: x in r <==> x in days && from <= x <= 6
    decreases 7 - from
  {
    if from == 7 then []
    else
      var rest := Ascending(days, from + 1);
      (if from in days then [from] else []) + rest
  }

  /** The pieces of the split turned into the result: a sorted list of the
      distinct days, or the first error. */
  function DaysOfParts(parts: seq<string>): (r: Result<seq<int>, ParseError>)
    ensures r.Success? <==> AllGood(parts) && PartDays(parts) != {}
    ensures r.Success? ==> |r.value| >= 1 && StrictlyIncreasing(r.value)
                           && forall i :: 0 <= i < |r.value| ==> 0 <= r.value[i] <= 6
    ensures r.Success? ==> forall d :: d in r.value <==> d in PartDays(parts)
    ensures r.Failure? ==> || (AllGood(parts) && r.error == NoDays)
                           || (exists i :: FirstBad(parts, i) && ParseToken(parts[i]) == Failure(r.error))
  {
    match CollectDays(parts, {})
    case Failure(e) =>
      Failure(e)
    case Success(days) =>
      PartDaysAreWeekdays(parts);
      if days == {} then Failure(NoDays)
      else
        AscendingOfWeekdays(days);
        Success(Ascending(days, 0))
  }

  lemma AscendingOfWeekdays(days: set<int>)
    requires days != {} && forall d :: d in days ==> 0 <= d <= 6
    ensures |Ascending(days, 0)| >= 1
  {
    var r := Ascending(days, 0);
    var d :| d in days;
    assert d in r;
  }

  /** `parse_weekdays`. */
  function ParseWeekdays(text: string): (r: Result<seq<int>, ParseError>)
    ensures r == Failure(EmptyInput) <==> Strip(text) == []
    ensures r.Success? <==> Strip(text) != [] && AllGood(Split(Strip(text))) && PartDays(Split(Strip(text))) != {}
    ensures r.Success? ==> |r.value| >= 1 && StrictlyIncreasing(r.value)
                           && forall i :: 0 <= i < |r.value| ==> 0 <= r.value[i] <= 6
    ensures r.Success? ==> forall d :: d in r.value <==> d in PartDays(Split(Strip(text)))
    ensures r.Failure? && r.error != EmptyInput ==>
              || (AllGood(Split(Strip(text))) && r.error == NoDays)
              || (exists i :: FirstBad(Split(Strip(text)), i) && ParseToken(Split(Strip(text))[i]) == Failure(r.error))
  {
    var t := Strip(text);
    if t == [] then Failure(EmptyInput) else DaysOfParts(Split(t))
  }

  lemma {:induction false} ConcatEmpty(parts: seq<string>)
    requires Concat(parts) == []
    ensures forall i :: 0 <= i < |parts| ==> parts[i] == []
  {
    if parts != [] {
      ConcatEmpty(parts[1..]);
      assert forall i :: 1 <= i < |parts| ==> parts[i] == parts[1..][i - 1];
    }
  }

  lemma {:induction false} WithoutAllSeparators(s: string)
    requires forall i :: 0 <= i < |s| ==> IsSeparator(s[i])
    ensures Without(s, Separator) == []
  {
    if s != [] {
      WithoutAllSeparators(s[1..]);
    }
  }

  /** Input made of separators only (commas, semicolons, whitespace, or
      nothing at all) is rejected: as empty when stripping leaves nothing, as
      having no days otherwise. */
  lemma OnlySeparatorsRejected(text: string)
    requires forall i :: 0 <= i < |text| ==> IsSeparator(text[i])
    ensures ParseWeekdays(text) == Failure(EmptyInput) || ParseWeekdays(text) == Failure(NoDays)
  {
    var t := Strip(text);
    if t != [] {
      forall i | 0 <= i < |t|
        ensures IsSeparator(t[i])
      {
        assert t[i] in text;
      }
      WithoutAllSeparators(t);
      var parts := Split(t);
      ConcatEmpty(parts);
      assert AllGood(parts);
      assert PartDays(parts) == {};
    }
  }

  lemma {:induction false} SplitWithoutSeparators(t: string, cur: string)
    requires NoSeparator(cur) && NoSeparator(t)
    ensures SplitFrom(t, cur) == [cur + t]
    decreases |t|
  {
    if t != [] {
      assert !IsSeparator(t[0]);
      assert NoSeparator(cur + [t[0]]) by {
        assert forall i :: 0 <= i < |cur| ==> (cur + [t[0]])[i] == cur[i];
      }
      assert NoSeparator(t[1..]) by {
        assert forall i :: 0 <= i < |t| - 1 ==> t[1..][i] == t[i + 1];
      }
      SplitWithoutSeparators(t[1..], cur + [t[0]]);
      assert SplitFrom(t, cur) == SplitFrom(t[1..], cur + [t[0]]);
      assert t == [t[0]] + t[1..];
      assert cur + [t[0]] + t[1..] == cur + t;
    } else {
      assert cur + t == cur;
    }
  }

  /** A day missing from the set is skipped. */
  lemma AscendingSkip(days: set<int>, from: int)
    requires 0 <= from < 7 && from !in days
    ensures Ascending(days, from) == Ascending(days, from + 1)
  {
    assert [] + Ascending(days, from + 1) == Ascending(days, from + 1);
  }

  /** A day in the set comes first. */
  lemma AscendingTake(days: set<int>, from: int)
    requires 0 <= from < 7 && from in days
    ensures Ascending(days, from) == [from] + Ascending(days, from + 1)
  {
  }

  lemma AscendingAbove(days: set<int>, from: int)
    requires 0 <= from <= 7
    requires forall d :: d in days ==> d < from
    ensures Ascending(days, from) == []
  {
    Seqs.NothingIn(Ascending(days, from));
  }

  lemma {:induction false} AscendingSingleton(v: int, from: int)
    requires 0 <= from <= v <= 6
    ensures Ascending({v}, from) == [v]
    decreases v - from
  {
    if from < v {
      AscendingSingleton(v, from + 1);
      AscendingSkip({v}, from);
    } else {
      AscendingAbove({v}, v + 1);
      AscendingTake({v}, v);
      assert [v] + [] == [v];
    }
  }

  lemma CollectSingle(t: string, acc: set<int>)
    requires t != []
    ensures CollectDays([t], acc) ==
      if ParseToken(t).Success? then Success(acc + {ParseToken(t).value}) else Failure(ParseToken(t).error)
  {
    assert [t][1..] == [];
  }

  lemma DaysOfSingle(t: string)
    requires t != []
    ensures DaysOfParts([t]) ==
      if ParseToken(t).Success? then Success([ParseToken(t).value]) else Failure(ParseToken(t).error)
  {
    CollectSingle(t, {});
    if ParseToken(t).Success? {
      var v := ParseToken(t).value;
      assert {} + {v} == {v};
      assert CollectDays([t], {}) == Success({v});
      AscendingSingleton(v, 0);
      assert DaysOfParts([t]) == Success(Ascending({v}, 0));
    } else {
      assert DaysOfParts([t]) == Failure(ParseToken(t).error);
    }
  }

  /** Input that is a single token is parsed as that token alone. */
  lemma SingleToken(t: string)
    requires t != [] && NoSeparator(t)
    ensures ParseWeekdays(t) ==
      if ParseToken(t).Success? then Success([ParseToken(t).value]) else Failure(ParseToken(t).error)
  {
    assert Strip(t) == t;
    SplitWithoutSeparators(t, []);
    assert [] + t == t;
    assert Split(t) == [t];
    DaysOfSingle(t);
  }

  /** A lone number: 0..6 denote themselves, 7 denotes Sunday (6), anything
      larger is rejected. So "1" means Tuesday, although the 1-based reading
      "1 = Monday" is also offered to the user. */
  lemma NumberQuirk(n: nat)
    ensures ParseWeekdays(NatToDigits(n)) ==
      if n <= 6 then Success([n])
      else if n == 7 then Success([6])
      else Failure(NumberOutOfRange(NatToDigits(n)))
  {
    var t := NatToDigits(n);
    assert NoSeparator(t) by {
      forall i | 0 <= i < |t|
        ensures !IsSeparator(t[i])
      {
        assert IsDigit(t[i]);
      }
    }
    assert ParseToken(t) == if n <= 6 then Success(n) else if n == 7 then Success(6) else Failure(NumberOutOfRange(t));
    SingleToken(t);
  }
}
