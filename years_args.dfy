/** The command-line filter arguments of the pipeline: the country list, the
    year list with its hyphenated ranges, and the compact year-range text the
    report prints (`parse_countries_arg`, `parse_years_arg` and
    `format_years_list` of src/io_utils.py). */
module YearsArgs {
  import opened Wrappers
  import opened Strings
  import opened Collections

  // ---------------------------------------------------------------------------
  // tokenising

  /** A token as the parser keeps it: non-empty, no comma, no whitespace at either end. */
  predicate IsToken(t: string) {
    t != [] && ',' !in t && !IsSpace(t[0]) && !IsSpace(t[|t| - 1])
  }

  /** `[f(p) for p in parts if f(p)]`. */
  function NonEmptyImages(parts: seq<string>, f: string -> string): (toks: seq<string>)
    ensures |toks| <= |parts|
  {
    if parts == [] then []
    else (if f(parts[0]) != "" then [f(parts[0])] else []) + NonEmptyImages(parts[1..], f)
  }

  /** Every kept image satisfies `p` when every non-empty image does. */
  lemma {:induction false} NonEmptyImagesAll(parts: seq<string>, f: string -> string, p: string -> bool)
    requires forall i :: 0 <= i < |parts| ==> f(parts[i]) != "" ==> p(f(parts[i]))
    ensures forall i :: 0 <= i < |NonEmptyImages(parts, f)| ==> p(NonEmptyImages(parts, f)[i])
  {
    if parts != [] {
      assert forall i :: 0 <= i < |parts| - 1 ==> parts[1..][i] == parts[i + 1];
      NonEmptyImagesAll(parts[1..], f, p);
      var head := if f(parts[0]) != "" then [f(parts[0])] else [];
      var rest := NonEmptyImages(parts[1..], f);
      assert forall i :: |head| <= i < |head| + |rest| ==> (head + rest)[i] == rest[i - |head|];
    }
  }

  /** Pieces whose images are the non-empty `out` are kept as `out`. */
  lemma {:induction false} NonEmptyImagesMap(parts: seq<string>, f: string -> string, out: seq<string>)
    requires |parts| == |out|
    requires forall i :: 0 <= i < |parts| ==> out[i] != "" && f(parts[i]) == out[i]
    ensures NonEmptyImages(parts, f) == out
  {
    if parts != [] {
      assert forall i :: 0 <= i < |parts| - 1 ==> parts[1..][i] == parts[i + 1] && out[1..][i] == out[i + 1];
      NonEmptyImagesMap(parts[1..], f, out[1..]);
      assert out == [out[0]] + out[1..];
    }
  }

  /** The tokens of a comma-separated argument, in input order:
      `[p.strip() for p in arg.split(",") if p.strip()]`. */
  function Tokens(arg: string): (toks: seq<string>)
    ensures forall i :: 0 <= i < |toks| ==> IsToken(toks[i])
  {
    var parts := Split(arg, ',');
    forall i | 0 <= i < |parts| ensures Strip(parts[i]) != "" ==> IsToken(Strip(parts[i])) {
      StripToken(parts[i]);
    }
    NonEmptyImagesAll(parts, Strip, IsToken);
    NonEmptyImages(parts, Strip)
  }

  lemma StripToken(p: string)
    requires ',' !in p
    ensures Strip(p) != "" ==> IsToken(Strip(p))
  {
    StripKeepsOut(p, ',');
  }

  lemma TokenStrip(t: string)
    requires IsToken(t)
    ensures Strip(t) == t
  {
    assert TrimStart(t) == t;
    assert TrimEnd(t) == t;
  }

  /** `parse_countries_arg`: `None` when the argument is absent or empty, otherwise
      the stripped non-empty comma-separated names in input order. */
  function ParseCountriesArg(arg: Option<string>): (r: Option<seq<string>>)
    ensures r.None? <==> arg.None? || arg.value == ""
    ensures r.Some? ==> forall i :: 0 <= i < |r.value| ==> IsToken(r.value[i])
  {
    if arg.None? || arg.value == "" then None else Some(Tokens(arg.value))
  }

  /** Joining trimmed, comma-free names with commas and parsing the result gives the names back. */
  lemma CountriesRoundTrip(names: seq<string>)
    requires names != [] && forall i :: 0 <= i < |names| ==> IsToken(names[i])
    ensures ParseCountriesArg(Some(Join(names, ","))) == Some(names)
  {
    TokensOfJoin(names);
    JoinNonEmpty(names, ",");
  }

  lemma TokensOfSplit(s: string)
    ensures Tokens(s) == NonEmptyImages(Split(s, ','), Strip)
  {
  }

  lemma SplitOfJoinComma(names: seq<string>)
    requires names != [] && forall i :: 0 <= i < |names| ==> IsToken(names[i])
    ensures Split(Join(names, ","), ',') == names
  {
    SplitOfJoin(names, ',');
  }

  /** The tokens of names joined with commas are the names. */
  lemma TokensOfJoin(names: seq<string>)
    requires names != [] && forall i :: 0 <= i < |names| ==> IsToken(names[i])
    ensures Tokens(Join(names, ",")) == names
  {
    TokensOfSplit(Join(names, ","));
    SplitOfJoinComma(names);
    forall i | 0 <= i < |names| ensures names[i] != "" && Strip(names[i]) == names[i] {
      TokenStrip(names[i]);
    }
    NonEmptyImagesMap(names, Strip, names);
  }

  lemma JoinNonEmpty(parts: seq<string>, glue: string)
    requires parts != [] && parts[0] != ""
    ensures Join(parts, glue) != ""
  {
  }

  // ---------------------------------------------------------------------------
  // years

  /** `set(range(lo, hi + 1))`. */
  function RangeSet(lo: int, hi: int): (s: set<int>)
    ensures forall y :: y in s <==> lo <= y <= hi
    decreases hi - lo
  {
    if lo > hi then {} else RangeSet(lo, hi - 1) + {hi}
  }

  /** `list(range(lo, hi + 1))`. */
  function RangeSeq(lo: int, hi: int): (s: seq<int>)
    ensures Elements(s) == RangeSet(lo, hi)
    decreases hi - lo
  {
    if lo > hi then [] else
      var s := RangeSeq(lo, hi - 1) + [hi];
      ElementsConcat(RangeSeq(lo, hi - 1), [hi]);
      s
  }

  /** The years one token of the argument adds: `a-b` (split at the first hyphen)
      adds every year between `a` and `b` inclusive in either order, a token without
      a hyphen adds itself, and a token `int()` rejects adds nothing. */
  function TokenYears(tok: string): set<int> {
    if '-' in tok then
      var (a, b) := SplitOnce(tok, '-');
      BoundsYears(ParseInt(a), ParseInt(b))
    else
      match ParseInt(tok)
      case Some(x) => {x}
      case None => {}
  }

  /** The years between two parsed bounds, in either order; nothing when a bound failed to parse. */
  function BoundsYears(a: Option<int>, b: Option<int>): set<int> {
    if a.Some? && b.Some? then
      if a.value > b.value then RangeSet(b.value, a.value) else RangeSet(a.value, b.value)
    else {}
  }

  /** The union of `f` over a sequence, built left to right. */
  function UnionOver(toks: seq<string>, f: string -> set<int>): set<int> {
    if toks == [] then {} else UnionOver(toks[..|toks| - 1], f) + f(toks[|toks| - 1])
  }

  lemma {:induction false} UnionOverMembers(toks: seq<string>, f: string -> set<int>, y: int)
    ensures y in UnionOver(toks, f) <==> exists i :: 0 <= i < |toks| && y in f(toks[i])
  {
    if toks != [] {
      var init := toks[..|toks| - 1];
      UnionOverMembers(init, f, y);
      assert forall i :: 0 <= i < |init| ==> init[i] == toks[i];
    }
  }

  lemma UnionOverPrefix(toks: seq<string>, f: string -> set<int>, i: int)
    requires 0 <= i < |toks|
    ensures UnionOver(toks[..i + 1], f) == UnionOver(toks[..i], f) + f(toks[i])
  {
    assert toks[..i + 1][..i] == toks[..i];
  }

  /** The years a sequence of tokens adds, token by token. */
  function ArgYears(toks: seq<string>): set<int> {
    UnionOver(toks, TokenYears)
  }

  /** A year is parsed exactly when some token adds it. */
  lemma ArgYearsMembers(toks: seq<string>, y: int)
    ensures y in ArgYears(toks) <==> exists i :: 0 <= i < |toks| && y in TokenYears(toks[i])
  {
    UnionOverMembers(toks, TokenYears, y);
  }

  /** The concatenation of `f` over a sequence, built left to right. */
  function ConcatOver(toks: seq<string>, f: string -> seq<int>): seq<int> {
    if toks == [] then [] else ConcatOver(toks[..|toks| - 1], f) + f(toks[|toks| - 1])
  }

  lemma {:induction false} ConcatOverElements(toks: seq<string>, f: string -> seq<int>, g: string -> set<int>)
    requires forall t :: Elements(f(t)) == g(t)
    ensures Elements(ConcatOver(toks, f)) == UnionOver(toks, g)
  {
    if toks != [] {
      ConcatOverElements(toks[..|toks| - 1], f, g);
      ElementsConcat(ConcatOver(toks[..|toks| - 1], f), f(toks[|toks| - 1]));
    }
  }

  /** The years of one token as a list: the range of a range token, the year of a year token. */
  function TokenYearList(tok: string): (ys: seq<int>)
    ensures Elements(ys) == TokenYears(tok)
  {
    if '-' in tok then
      var (a, b) := SplitOnce(tok, '-');
      BoundsList(ParseInt(a), ParseInt(b))
    else
      match ParseInt(tok)
      case Some(x) => [x]
      case None => []
  }

  function BoundsList(a: Option<int>, b: Option<int>): (ys: seq<int>)
    ensures Elements(ys) == BoundsYears(a, b)
  {
    if a.Some? && b.Some? then
      if a.value > b.value then RangeSeq(b.value, a.value) else RangeSeq(a.value, b.value)
    else []
  }

  /** The value `parse_years_arg` returns: `None` for an absent or empty argument,
      otherwise the years of its tokens, sorted and without repeats. */
  function ParseYears(arg: Option<string>): (r: Option<seq<int>>)
    ensures r.None? <==> arg.None? || arg.value == ""
    ensures r.Some? ==> Increasing(r.value) && Elements(r.value) == ArgYears(Tokens(arg.value))
  {
    if arg.None? || arg.value == "" then None
    else
      var ys := ConcatOver(Tokens(arg.value), TokenYearList);
      ConcatOverElements(Tokens(arg.value), TokenYearList, TokenYears);
      Some(SortedDistinct(ys))
  }

  /** `parse_years_arg`: `None` exactly when the argument is absent or empty;
      otherwise the years of all well-formed tokens, ascending and without repeats
      (possibly none at all). */
  method ParseYearsArg(arg: Option<string>) returns (r: Option<seq<int>>)
    ensures r.None? <==> arg.None? || arg.value == ""
    ensures r.Some? ==> Increasing(r.value) && Elements(r.value) == ArgYears(Tokens(arg.value))
    ensures r == ParseYears(arg)
  {
    if arg.None? || arg.value == "" {
      return None;
    }
    var parts := Tokens(arg.value);
    // the set of years is held as the list of the years added to it
    var yearsSet: seq<int> := [];
    for i := 0 to |parts|
      invariant Elements(yearsSet) == ArgYears(parts[..i])
    {
      yearsSet := AddTokenYears(yearsSet, parts[i]);
      UnionOverPrefix(parts, TokenYears, i);
    }
    assert parts[..|parts|] == parts;
    assert Elements(yearsSet) == ArgYears(parts);
    var sorted := SortedDistinct(yearsSet);
    r := Some(sorted);
    IncreasingUnique(sorted, ParseYears(arg).value);
  }

  /** One step of the loop of `parse_years_arg`: the years of one token added to those so far. */
  method AddTokenYears(yearsSet: seq<int>, part: string) returns (r: seq<int>)
    ensures Elements(r) == Elements(yearsSet) + TokenYears(part)
  {
    r := yearsSet;
    if '-' in part {
      var (startStr, endStr) := SplitOnce(part, '-');
      var start := ParseInt(startStr);
      var end := ParseInt(endStr);
      assert TokenYears(part) == BoundsYears(start, end);
      if start.Some? && end.Some? {
        var lo, hi := start.value, end.value;
        if lo > hi {
          lo, hi := hi, lo;
        }
        ElementsConcat(yearsSet, RangeSeq(lo, hi));
        r := yearsSet + RangeSeq(lo, hi);
      }
    } else {
      var year := ParseInt(part);
      assert TokenYears(part) == if year.Some? then {year.value} else {};
      if year.Some? {
        ElementsConcat(yearsSet, [year.value]);
        r := yearsSet + [year.value];
      }
    }
  }

  lemma SplitOnceOf(a: string, sep: char, b: string)
    requires sep !in a
    ensures sep in a + [sep] + b
    ensures SplitOnce(a + [sep] + b, sep) == (a, b)
  {
    var s := a + [sep] + b;
    assert s[|a|] == sep;
    var (x, y) := SplitOnce(s, sep);
    assert |x| == |a| by {
      assert forall i :: 0 <= i < |a| ==> s[i] == a[i] && s[i] != sep;
      assert forall i :: 0 <= i < |x| ==> s[i] == x[i] && s[i] != sep;
      assert s[|x|] == sep;
    }
    assert x == s[..|a|] == a;
    assert y == s[|a| + 1..] == b;
  }

  /** A range token `a-b` of two non-negative years adds every year from the smaller to the larger. */
  lemma RangeTokenYears(a: nat, b: nat)
    ensures TokenYears(NatToStr(a) + "-" + NatToStr(b)) == RangeSet(if a < b then a else b, if a < b then b else a)
  {
    var sa, sb := NatToStr(a), NatToStr(b);
    var tok := sa + "-" + sb;
    assert '-' !in sa by {
      assert forall i :: 0 <= i < |sa| ==> IsDigit(sa[i]);
    }
    SplitOnceOf(sa, '-', sb);
    assert tok == sa + ['-'] + sb;
    assert SplitOnce(tok, '-') == (sa, sb);
    ParseIntOfIntToStr(a);
    ParseIntOfIntToStr(b);
    assert IntToStr(a) == sa && IntToStr(b) == sb;
    assert ParseInt(sa) == Some(a as int) && ParseInt(sb) == Some(b as int);
    TokenYearsBounds(tok, sa, sb, a, b);
  }

  /** A token whose two sides around the first hyphen both parse adds exactly the
      years from the smaller bound to the larger, whichever comes first. */
  lemma TokenYearsRange(tok: string, sa: string, sb: string, x: int, y: int)
    requires '-' in tok && SplitOnce(tok, '-') == (sa, sb)
    requires ParseInt(sa) == Some(x) && ParseInt(sb) == Some(y)
    ensures forall v :: v in TokenYears(tok) <==> (if x <= y then x else y) <= v <= (if x <= y then y else x)
  {
    TokenYearsBounds(tok, sa, sb, x, y);
  }

  lemma TokenYearsBounds(tok: string, sa: string, sb: string, x: int, y: int)
    requires '-' in tok && SplitOnce(tok, '-') == (sa, sb)
    requires ParseInt(sa) == Some(x) && ParseInt(sb) == Some(y)
    ensures TokenYears(tok) == if x > y then RangeSet(y, x) else RangeSet(x, y)
  {
  }

  /** A reversed range adds the same years as the forward one. */
  lemma ReversedRange(a: nat, b: nat)
    ensures TokenYears(NatToStr(b) + "-" + NatToStr(a)) == TokenYears(NatToStr(a) + "-" + NatToStr(b))
  {
    RangeTokenYears(a, b);
    RangeTokenYears(b, a);
  }

  /** A token with an empty side, like `-5` or `2018-`, adds nothing. */
  lemma EmptySide(tok: string)
    requires '-' in tok
    requires Strip(SplitOnce(tok, '-').0) == "" || Strip(SplitOnce(tok, '-').1) == ""
    ensures TokenYears(tok) == {}
  {
  }

  /** A token whose right side holds another hyphen after its first character,
      like `2018-2020-2022`, adds nothing. */
  lemma SecondHyphen(tok: string, k: int)
    requires '-' in tok
    requires 0 < k < |Strip(SplitOnce(tok, '-').1)| && Strip(SplitOnce(tok, '-').1)[k] == '-'
    ensures TokenYears(tok) == {}
  {
    ParseIntInnerHyphen(SplitOnce(tok, '-').1, k);
  }

  /** A doubled hyphen is not rejected: `tok == "a--b"` splits into `a` and `-b`, and
      adds every year from `-b` to `a`. */
  lemma DoubleHyphen(a: nat, b: nat, tok: string)
    requires b > 0 && tok == NatToStr(a) + "--" + NatToStr(b)
    ensures forall v :: v in TokenYears(tok) <==> -(b as int) <= v <= a
  {
    var nb: int := -(b as int);
    var sa, sb := IntToStr(a), IntToStr(nb);
    NatHasNoHyphen(a);
    SplitOnceOf(sa, '-', sb);
    assert tok == sa + ['-'] + sb;
    ParseIntOfIntToStr(a);
    ParseIntOfIntToStr(nb);
    TokenYearsRange(tok, sa, sb, a, nb);
  }

  lemma NatHasNoHyphen(a: nat)
    ensures '-' !in IntToStr(a)
  {
    var s := NatToStr(a);
    assert IntToStr(a) == s;
    assert forall i :: 0 <= i < |s| ==> IsDigit(s[i]);
  }

  /** A token without a hyphen that `int()` rejects adds nothing. */
  lemma NotAnInteger(tok: string)
    requires '-' !in tok && !IsIntLiteral(Strip(tok))
    ensures TokenYears(tok) == {}
  {
  }

  /** An argument of separators only, like `,`, has no tokens, so it parses to the empty list, not `None`. */
  lemma OnlyCommas()
    ensures Tokens(",") == [] && ArgYears(Tokens(",")) == {}
  {
    assert Split(",", ',') == ["", ""] by {
      SplitOfJoin(["", ""], ',');
      assert Join(["", ""], [',']) == ",";
    }
    assert Strip("") == "";
  }

  // ---------------------------------------------------------------------------
  // formatting years as ranges

  /** A maximal block of consecutive years `first..last`. */
  datatype Run = Run(first: int, last: int)

  /** The runs of an ascending sequence, built left to right: a year one past the
      end of the current run extends it, any other year opens a new run. */
  function Runs(ys: seq<int>): seq<Run> {
    if ys == [] then []
    else
      var rs := Runs(ys[..|ys| - 1]);
      var y := ys[|ys| - 1];
      if rs != [] && rs[|rs| - 1].last + 1 == y then rs[..|rs| - 1] + [Run(rs[|rs| - 1].first, y)]
      else rs + [Run(y, y)]
  }

  /** The years the runs cover. */
  function RunsSet(rs: seq<Run>): set<int> {
    if rs == [] then {} else RunsSet(rs[..|rs| - 1]) + RangeSet(rs[|rs| - 1].first, rs[|rs| - 1].last)
  }

  /** Runs are non-empty, ascending, and separated by at least one missing year (so none can be merged). */
  predicate MaximalRuns(rs: seq<Run>) {
    (forall i :: 0 <= i < |rs| ==> rs[i].first <= rs[i].last) &&
    (forall i :: 0 <= i < |rs| - 1 ==> rs[i].last + 1 < rs[i + 1].first)
  }

  /** The runs of an ascending sequence are maximal, cover exactly its years,
      and span from its first to its last year. */
  lemma {:induction false} RunsOfIncreasing(ys: seq<int>)
    requires Increasing(ys)
    ensures MaximalRuns(Runs(ys))
    ensures RunsSet(Runs(ys)) == Elements(ys)
    ensures ys != [] ==> Runs(ys) != [] && Runs(ys)[0].first == ys[0] && Runs(ys)[|Runs(ys)| - 1].last == ys[|ys| - 1]
  {
    if ys != [] {
      var init := ys[..|ys| - 1];
      var y := ys[|ys| - 1];
      RunsOfIncreasing(init);
      ElementsSnoc(ys);
      var rs := Runs(init);
      assert rs != [] ==> rs[|rs| - 1].last < y by {
        if init != [] {
          assert init[|init| - 1] == ys[|ys| - 2];
        }
      }
      assert init != [] ==> init[0] == ys[0];
      if rs != [] && rs[|rs| - 1].last + 1 == y {
        ExtendLastRun(rs, y);
      } else {
        OpenRun(rs, y);
      }
    }
  }

  lemma ExtendLastRun(rs: seq<Run>, y: int)
    requires MaximalRuns(rs) && rs != [] && rs[|rs| - 1].last + 1 == y
    ensures var rs' := rs[..|rs| - 1] + [Run(rs[|rs| - 1].first, y)];
      MaximalRuns(rs') && RunsSet(rs') == RunsSet(rs) + {y} &&
      rs'[0].first == rs[0].first && rs'[|rs'| - 1].last == y
  {
    var n := |rs|;
    var rs' := rs[..n - 1] + [Run(rs[n - 1].first, y)];
    assert forall i :: 0 <= i < n - 1 ==> rs'[i] == rs[i];
    ExtendMaximal(rs, y);
    ExtendCover(rs[..n - 1], rs[n - 1], y);
    assert rs == rs[..n - 1] + [rs[n - 1]];
  }

  lemma ExtendMaximal(rs: seq<Run>, y: int)
    requires MaximalRuns(rs) && rs != [] && rs[|rs| - 1].last + 1 == y
    ensures MaximalRuns(rs[..|rs| - 1] + [Run(rs[|rs| - 1].first, y)])
  {
    var n := |rs|;
    var rs' := rs[..n - 1] + [Run(rs[n - 1].first, y)];
    assert forall i :: 0 <= i < n ==> rs'[i].first == rs[i].first;
    assert forall i :: 0 <= i < n - 1 ==> rs'[i].last == rs[i].last;
  }

  lemma ExtendCover(init: seq<Run>, r: Run, y: int)
    requires r.first <= r.last && r.last + 1 == y
    ensures RunsSet(init + [Run(r.first, y)]) == RunsSet(init + [r]) + {y}
  {
    assert (init + [Run(r.first, y)])[..|init|] == init;
    assert (init + [r])[..|init|] == init;
    assert RangeSet(r.first, y) == RangeSet(r.first, r.last) + {y};
  }

  lemma OpenRun(rs: seq<Run>, y: int)
    requires MaximalRuns(rs) && (rs != [] ==> rs[|rs| - 1].last + 1 < y)
    ensures var rs' := rs + [Run(y, y)];
      MaximalRuns(rs') && RunsSet(rs') == RunsSet(rs) + {y} &&
      (rs != [] ==> rs'[0].first == rs[0].first) && rs'[|rs'| - 1].last == y
  {
    var rs' := rs + [Run(y, y)];
    assert rs'[..|rs|] == rs;
    assert RangeSet(y, y) == {y};
  }

  function RunText(r: Run): string {
    if r.first == r.last then IntToStr(r.first) else IntToStr(r.first) + "-" + IntToStr(r.last)
  }

  function RunTexts(rs: seq<Run>): (ts: seq<string>)
    ensures |ts| == |rs| && forall i :: 0 <= i < |rs| ==> ts[i] == RunText(rs[i])
  {
    seq(|rs|, i requires 0 <= i < |rs| => RunText(rs[i]))
  }

  /** The compact text of a list of years: `N/A` for none, otherwise the maximal
      runs of its distinct years in ascending order, a run of one year as `a` and a
      longer run as `a-b`, separated by `, `. */
  function FormatYears(ys: seq<int>): string {
    if ys == [] then "N/A" else Join(RunTexts(Runs(SortedDistinct(ys))), ", ")
  }

  /** Runs start no earlier than the first one. */
  lemma {:induction false} RunsAscending(rs: seq<Run>, i: int)
    requires MaximalRuns(rs) && 0 <= i < |rs|
    ensures rs[0].first <= rs[i].first
    decreases i
  {
    if i > 0 {
      RunsAscending(rs, i - 1);
    }
  }

  lemma DigitsToken(t: string)
    requires t != [] && AllDigits(t)
    ensures IsToken(t) && '-' !in t
  {
    assert forall k :: 0 <= k < |t| ==> IsDigit(t[k]);
  }

  /** The text of a run of non-negative years is a token that adds exactly the run's years. */
  lemma RunTextYears(r: Run)
    requires 0 <= r.first <= r.last
    ensures IsToken(RunText(r)) && TokenYears(RunText(r)) == RangeSet(r.first, r.last)
  {
    if r.first == r.last {
      SingleYearToken(r.first);
      assert RangeSet(r.first, r.last) == {r.first};
    } else {
      RangeTokenYears(r.first, r.last);
      RangeToken(r.first, r.last);
    }
  }

  lemma SingleYearToken(x: nat)
    ensures IsToken(NatToStr(x)) && TokenYears(NatToStr(x)) == {x}
  {
    DigitsToken(NatToStr(x));
    ParseIntOfIntToStr(x);
  }

  lemma RangeToken(x: nat, y: nat)
    ensures IsToken(NatToStr(x) + "-" + NatToStr(y))
  {
    var a, b := NatToStr(x), NatToStr(y);
    DigitsToken(a);
    DigitsToken(b);
    var t := a + "-" + b;
    assert t[0] == a[0] && t[|t| - 1] == b[|b| - 1];
    assert forall k :: 0 <= k < |a| ==> t[k] == a[k];
    assert forall k :: |a| < k < |t| ==> t[k] == b[k - |a| - 1];
    assert t[|a|] == '-';
  }

  /** The texts of runs of non-negative years add exactly the years the runs cover. */
  lemma {:induction false} RunTextsYears(rs: seq<Run>)
    requires forall i :: 0 <= i < |rs| ==> 0 <= rs[i].first <= rs[i].last
    ensures forall i :: 0 <= i < |rs| ==> IsToken(RunTexts(rs)[i])
    ensures UnionOver(RunTexts(rs), TokenYears) == RunsSet(rs)
  {
    forall i | 0 <= i < |rs| ensures IsToken(RunTexts(rs)[i]) {
      RunTextYears(rs[i]);
    }
    if rs != [] {
      var n := |rs| - 1;
      assert RunTexts(rs)[..n] == RunTexts(rs[..n]);
      assert forall i :: 0 <= i < n ==> rs[..n][i] == rs[i];
      RunTextsYears(rs[..n]);
      RunTextYears(rs[n]);
    }
  }

  /** The tokens of `", ".join(texts)` are the texts themselves. */
  lemma TokensOfCommaSpaceJoin(texts: seq<string>)
    requires texts != [] && forall i :: 0 <= i < |texts| ==> IsToken(texts[i])
    ensures Tokens(Join(texts, ", ")) == texts
  {
    var s := Join(texts, ", ");
    SplitCommaSpace(texts);
    TokensOfSplit(s);
    StripPadded(texts);
  }

  /** Splitting `", ".join(texts)` at commas gives the texts, all but the first after a space. */
  lemma SplitCommaSpace(texts: seq<string>)
    requires texts != [] && forall i :: 0 <= i < |texts| ==> IsToken(texts[i])
    ensures Split(Join(texts, ", "), ',') == [texts[0]] + Spaced(texts[1..])
  {
    var pads := [texts[0]] + Spaced(texts[1..]);
    CommaSpaceJoin(texts);
    forall i | 0 <= i < |pads| ensures ',' !in pads[i] {
      PaddedToken(texts, i);
    }
    SplitOfJoin(pads, ',');
  }

  /** Stripping the padded texts gives the texts back, none of them empty. */
  lemma StripPadded(texts: seq<string>)
    requires texts != [] && forall i :: 0 <= i < |texts| ==> IsToken(texts[i])
    ensures NonEmptyImages([texts[0]] + Spaced(texts[1..]), Strip) == texts
  {
    var pads := [texts[0]] + Spaced(texts[1..]);
    forall i | 0 <= i < |pads| ensures Strip(pads[i]) == texts[i] {
      PaddedToken(texts, i);
    }
    NonEmptyImagesMap(pads, Strip, texts);
  }

  lemma PaddedToken(texts: seq<string>, i: int)
    requires 0 <= i < |texts| && texts != [] && IsToken(texts[i])
    ensures var pads := [texts[0]] + Spaced(texts[1..]);
      ',' !in pads[i] && Strip(pads[i]) == texts[i]
  {
    if i == 0 {
      TokenStrip(texts[0]);
    } else {
      var p := " " + texts[i];
      assert ([texts[0]] + Spaced(texts[1..]))[i] == p;
      StripSpaced(texts[i]);
      assert forall k :: 0 < k < |p| ==> p[k] == texts[i][k - 1];
    }
  }

  /** Formatting non-negative years and parsing the text back gives the same set of years. */
  lemma FormatParseRoundTrip(ys: seq<int>)
    requires ys != [] && forall i :: 0 <= i < |ys| ==> ys[i] >= 0
    ensures ArgYears(Tokens(FormatYears(ys))) == Elements(ys)
  {
    var sd := SortedDistinct(ys);
    assert sd[0] in Elements(ys);
    RunsOfIncreasing(sd);
    var rs := Runs(sd);
    forall i | 0 <= i < |rs| ensures 0 <= rs[i].first <= rs[i].last {
      RunsAscending(rs, i);
    }
    RunTextsYears(rs);
    var texts := RunTexts(rs);
    TokensOfCommaSpaceJoin(texts);
    assert FormatYears(ys) == Join(texts, ", ");
  }

  /** `Runs` of one more element of `ys`. */
  lemma RunsStep(ys: seq<int>, i: int)
    requires 0 <= i < |ys|
    ensures var rs := Runs(ys[..i]); var y := ys[i];
      Runs(ys[..i + 1]) ==
        if rs != [] && rs[|rs| - 1].last + 1 == y then rs[..|rs| - 1] + [Run(rs[|rs| - 1].first, y)]
        else rs + [Run(y, y)]
  {
    assert ys[..i + 1][..i] == ys[..i];
  }

  lemma RunTextsSnoc(rs: seq<Run>, r: Run)
    ensures RunTexts(rs + [r]) == RunTexts(rs) + [RunText(r)]
  {
  }

  /** `format_years_list`. */
  method FormatYearsList(years: seq<int>) returns (s: string)
    ensures s == FormatYears(years)
  {
    if years == [] {
      return "N/A";
    }
    var ys := SortedDistinct(years);
    var ranges: seq<string> := [];
    var start, end := ys[0], ys[0];
    ghost var done: seq<Run> := [];
    RunsStep(ys, 0);
    assert ys[..0] == [];
    for i := 1 to |ys|
      invariant Runs(ys[..i]) == done + [Run(start, end)]
      invariant RunTexts(done) == ranges
    {
      RunsStep(ys, i);
      assert (done + [Run(start, end)])[..|done|] == done;
      if ys[i] == end + 1 {
        end := ys[i];
      } else {
        RunTextsSnoc(done, Run(start, end));
        done := done + [Run(start, end)];
        if start == end {
          ranges := ranges + [IntToStr(start)];
        } else {
          ranges := ranges + [IntToStr(start) + "-" + IntToStr(end)];
        }
        start := ys[i];
        end := ys[i];
      }
    }
    RunTextsSnoc(done, Run(start, end));
    if start == end {
      ranges := ranges + [IntToStr(start)];
    } else {
      ranges := ranges + [IntToStr(start) + "-" + IntToStr(end)];
    }
    assert ys[..|ys|] == ys;
    s := Join(ranges, ", ");
  }

  lemma TokensOfEmpty()
    ensures Tokens("") == []
  {
    TokensOfSplit("");
    assert Split("", ',') == [""];
    assert Strip("") == "";
  }

  /** Parsing the report's year text of non-negative years gives back the sorted distinct years. */
  method FormatThenParse(ys: seq<int>) returns (r: Option<seq<int>>)
    requires ys != [] && forall i :: 0 <= i < |ys| ==> ys[i] >= 0
    ensures r == Some(SortedDistinct(ys))
  {
    var text := FormatYearsList(ys);
    FormatParseRoundTrip(ys);
    TokensOfEmpty();
    assert ys[0] in Elements(ys);
    r := ParseYearsArg(Some(text));
    IncreasingUnique(r.value, SortedDistinct(ys));
  }

  /** The example of the year list's documentation: consecutive years collapse into a range. */
  lemma FormatExample()
    ensures FormatYears([2018, 2019, 2020, 2022]) == "2018-2020, 2022"
  {
    var ys := [2018, 2019, 2020, 2022];
    ExampleSorted();
    ExampleRuns();
    ExampleJoin();
  }

  lemma ExampleJoin()
    ensures Join(RunTexts([Run(2018, 2020), Run(2022, 2022)]), ", ") == "2018-2020, 2022"
  {
    ExampleTexts();
    var ts := RunTexts([Run(2018, 2020), Run(2022, 2022)]);
    assert ts == ["2018-2020", "2022"];
    assert Join(ts[1..], ", ") == "2022";
  }

  lemma ExampleSorted()
    ensures SortedDistinct([2018, 2019, 2020, 2022]) == [2018, 2019, 2020, 2022]
  {
    IncreasingUnique(SortedDistinct([2018, 2019, 2020, 2022]), [2018, 2019, 2020, 2022]);
  }

  lemma ExampleTexts()
    ensures RunText(Run(2018, 2020)) == "2018-2020" && RunText(Run(2022, 2022)) == "2022"
  {
    YearText(2018, '0', '1', '8');
    YearText(2020, '0', '2', '0');
    YearText(2022, '0', '2', '2');
  }

  /** The text of a year of this century. */
  lemma YearText(n: nat, c: char, d: char, e: char)
    requires 2000 <= n < 2100
    requires c == DigitChar(n / 100 % 10) && d == DigitChar(n / 10 % 10) && e == DigitChar(n % 10)
    ensures IntToStr(n) == ['2', c, d, e]
  {
    FourDigits(n);
  }

  lemma ExampleRuns()
    ensures Runs([2018, 2019, 2020, 2022]) == [Run(2018, 2020), Run(2022, 2022)]
  {
    RunsOpen([], [], 2018);
    assert [] + [2018] == [2018] && [] + [Run(2018, 2018)] == [Run(2018, 2018)];
    RunsExtend([2018], [], 2018, 2019);
    assert [2018] + [2019] == [2018, 2019];
    RunsExtend([2018, 2019], [], 2018, 2020);
    assert [2018, 2019] + [2020] == [2018, 2019, 2020];
    RunsOpen([2018, 2019, 2020], [Run(2018, 2020)], 2022);
    assert [2018, 2019, 2020] + [2022] == [2018, 2019, 2020, 2022];
  }

  /** A year one past the last run extends it. */
  lemma RunsExtend(ys: seq<int>, rs: seq<Run>, first: int, y: int)
    requires Runs(ys) == rs + [Run(first, y - 1)]
    ensures Runs(ys + [y]) == rs + [Run(first, y)]
  {
    assert (ys + [y])[..|ys|] == ys;
    var r := rs + [Run(first, y - 1)];
    assert r[..|r| - 1] == rs;
  }

  /** Any other year opens a new run. */
  lemma RunsOpen(ys: seq<int>, rs: seq<Run>, y: int)
    requires Runs(ys) == rs && (rs == [] || rs[|rs| - 1].last + 1 != y)
    ensures Runs(ys + [y]) == rs + [Run(y, y)]
  {
    assert (ys + [y])[..|ys|] == ys;
  }

  lemma FourDigits(n: nat)
    requires 1000 <= n < 10000
    ensures NatToStr(n) == [DigitChar(n / 1000), DigitChar(n / 100 % 10), DigitChar(n / 10 % 10), DigitChar(n % 10)]
  {
    var c := n / 10;
    var b := c / 10;
    assert b == n / 100 && b / 10 == n / 1000;
    assert NatToStr(n) == NatToStr(c) + [DigitChar(n % 10)];
    assert NatToStr(c) == NatToStr(b) + [DigitChar(c % 10)];
    assert NatToStr(b) == [DigitChar(b / 10)] + [DigitChar(b % 10)];
  }

  /** The text depends only on which years occur: not on their order or repeats. */
  lemma FormatYearsOfSameSet(a: seq<int>, b: seq<int>)
    requires Elements(a) == Elements(b)
    ensures FormatYears(a) == FormatYears(b)
  {
    assert a == [] <==> b == [] by {
      assert a != [] ==> a[0] in Elements(b);
      assert b != [] ==> b[0] in Elements(a);
    }
    IncreasingUnique(SortedDistinct(a), SortedDistinct(b));
  }
}
