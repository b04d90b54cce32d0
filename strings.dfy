/** The parts of Python's `str` that the pipeline relies on, restricted to ASCII:
    whitespace stripping, `split` on one character, `join`, `int()` parsing and
    `str()` of an integer, case changes and character replacement. */
module Strings {
  import opened Wrappers

  /** Python's `str.isspace` on the ASCII code points: tab, line feed, vertical tab,
      form feed, carriage return, the four information separators and space. */
  predicate IsSpace(c: char) {
    c == ' ' || (9 <= c as int <= 13) || (28 <= c as int <= 31)
  }

  predicate IsDigit(c: char) {
    '0' <= c <= '9'
  }

  /** `str.isalnum` on ASCII letters and digits. */
  predicate IsAlnum(c: char) {
    IsDigit(c) || ('a' <= c <= 'z') || ('A' <= c <= 'Z')
  }

  predicate NoSpace(s: string) {
    forall i :: 0 <= i < |s| ==> !IsSpace(s[i])
  }

  // ---------------------------------------------------------------------------
  // strip

  /** `s.lstrip()`: the longest suffix of `s` that does not start with whitespace. */
  function TrimStart(s: string): (r: string)
    ensures |r| <= |s| && r == s[|s| - |r|..]
    ensures forall i :: 0 <= i < |s| - |r| ==> IsSpace(s[i])
    ensures r != [] ==> !IsSpace(r[0])
  {
    if s != [] && IsSpace(s[0]) then
      var r := TrimStart(s[1..]);
      assert s[1..][|s| - 1 - |r|..] == s[|s| - |r|..];
      r
    else
      s
  }

  /** `s.rstrip()`: the longest prefix of `s` that does not end with whitespace. */
  function TrimEnd(s: string): (r: string)
    ensures |r| <= |s| && r == s[..|r|]
    ensures forall i :: |r| <= i < |s| ==> IsSpace(s[i])
    ensures r != [] ==> !IsSpace(r[|r| - 1])
  {
    if s != [] && IsSpace(s[|s| - 1]) then
      var r := TrimEnd(s[..|s| - 1]);
      assert s[..|s| - 1][..|r|] == s[..|r|];
      r
    else
      s
  }

  lemma TrimEndKeeps(s: string)
    requires s == [] || !IsSpace(s[|s| - 1])
    ensures TrimEnd(s) == s
  {
  }

  /** `s.strip()`: `s` without leading and trailing whitespace. */
  function Strip(s: string): (r: string)
    ensures |r| <= |s|
    ensures r != [] ==> !IsSpace(r[0]) && !IsSpace(r[|r| - 1])
    ensures r == [] <==> forall i :: 0 <= i < |s| ==> IsSpace(s[i])
  {
    var t := TrimStart(s);
    var r := TrimEnd(t);
    assert r != [] ==> r[0] == t[0];
    assert r == [] ==> forall i :: 0 <= i < |s| ==> IsSpace(s[i]) by {
      if r == [] {
        assert t == [];
      }
    }
    r
  }

  /** `s.strip()` is the middle part `s[i..j]` of `s`, where `i` is where `s.lstrip()`
      starts: what it removes at either end is whitespace. */
  lemma {:induction false} StripSpec(s: string)
    ensures 0 <= |s| - |TrimStart(s)| <= |s| - |TrimStart(s)| + |Strip(s)| <= |s|
    ensures Strip(s) == s[|s| - |TrimStart(s)|..|s| - |TrimStart(s)| + |Strip(s)|]
    ensures forall k :: 0 <= k < |s| - |TrimStart(s)| ==> IsSpace(s[k])
    ensures forall k :: |s| - |TrimStart(s)| + |Strip(s)| <= k < |s| ==> IsSpace(s[k])
  {
    StripSlice(s);
    StripTail(s);
  }

  lemma StripTrims(s: string)
    ensures Strip(s) == TrimEnd(TrimStart(s))
  {
  }

  lemma {:induction false} StripSlice(s: string)
    ensures 0 <= |s| - |TrimStart(s)| <= |s| - |TrimStart(s)| + |Strip(s)| <= |s|
    ensures Strip(s) == s[|s| - |TrimStart(s)|..|s| - |TrimStart(s)| + |Strip(s)|]
  {
    var t := TrimStart(s);
    var r := Strip(s);
    StripPrefix(s);
    SliceOfSlice(s, t, r);
    assert r == s[|s| - |t|..|s| - |t| + |r|];
    assert TrimStart(s) == t && Strip(s) == r;
  }

  lemma {:induction false} StripPrefix(s: string)
    ensures |Strip(s)| <= |TrimStart(s)| && Strip(s) == TrimStart(s)[..|Strip(s)|]
  {
    StripTrims(s);
  }

  /** A prefix of a suffix of `s` is a slice of `s`. */
  lemma {:induction false} SliceOfSlice(s: string, t: string, r: string)
    requires |t| <= |s| && t == s[|s| - |t|..]
    requires |r| <= |t| && r == t[..|r|]
    ensures 0 <= |s| - |t| <= |s| - |t| + |r| <= |s|
    ensures r == s[|s| - |t|..|s| - |t| + |r|]
  {
  }

  lemma {:induction false} StripTail(s: string)
    ensures forall k :: |s| - |TrimStart(s)| + |Strip(s)| <= k < |s| ==> IsSpace(s[k])
  {
    StripTrims(s);
    PaddedTail(s, TrimStart(s), Strip(s));
  }

  /** What follows a prefix `r` of a suffix `t` of `s` in `s` is what follows `r` in `t`. */
  lemma {:induction false} PaddedTail(s: string, t: string, r: string)
    requires |t| <= |s| && t == s[|s| - |t|..]
    requires |r| <= |t| && r == t[..|r|] && forall k :: |r| <= k < |t| ==> IsSpace(t[k])
    ensures forall k :: |s| - |t| + |r| <= k < |s| ==> IsSpace(s[k])
  {
    var i := |s| - |t|;
    forall k | i + |r| <= k < |s|
      ensures IsSpace(s[k])
    {
      assert s[k] == t[k - i];
    }
  }

  /** Stripping adds no character: a character absent from `s` is absent from `s.strip()`. */
  lemma StripKeepsOut(s: string, c: char)
    requires c !in s
    ensures c !in Strip(s)
  {
    var t := TrimStart(s);
    var r := TrimEnd(t);
    assert r == t[..|r|] && t == s[|s| - |t|..];
    assert forall k :: 0 <= k < |r| ==> r[k] == s[|s| - |t| + k];
  }

  lemma StripNoSpace(s: string)
    requires NoSpace(s)
    ensures Strip(s) == s
  {
    assert TrimStart(s) == s;
  }

  // ---------------------------------------------------------------------------
  // split and join

  /** `glue.join(parts)`. */
  function Join(parts: seq<string>, glue: string): string {
    if |parts| == 0 then ""
    else if |parts| == 1 then parts[0]
    else parts[0] + glue + Join(parts[1..], glue)
  }

  /** `s.split(sep)` for a one-character separator: the pieces between the
      occurrences of `sep`, empty pieces included. */
  function Split(s: string, sep: char): (parts: seq<string>)
    ensures |parts| >= 1
    ensures forall i :: 0 <= i < |parts| ==> sep !in parts[i]
    ensures Join(parts, [sep]) == s
    decreases |s|
  {
    if s == [] then
      [""]
    else
      var rest := Split(s[1..], sep);
      if s[0] == sep then
        assert ([""] + rest)[1..] == rest;
        [""] + rest
      else
        var parts := [[s[0]] + rest[0]] + rest[1..];
        assert parts[1..] == rest[1..];
        assert s == [s[0]] + s[1..];
        parts
  }

  /** Splitting text that starts with a separator-free `w`: the first piece
      starts with `w`, and the other pieces are those of the rest. */
  lemma {:induction false} SplitPrefix(w: string, t: string, sep: char)
    requires sep !in w
    ensures Split(w + t, sep) == [w + Split(t, sep)[0]] + Split(t, sep)[1..]
    decreases |w|
  {
    var pt := Split(t, sep);
    if w == [] {
      assert w + t == t && w + pt[0] == pt[0];
      assert [pt[0]] + pt[1..] == pt;
    } else {
      var s := w + t;
      assert s[0] == w[0] && s[1..] == w[1..] + t;
      SplitPrefix(w[1..], t, sep);
      var rest := Split(s[1..], sep);
      assert rest == [w[1..] + pt[0]] + pt[1..];
      assert Split(s, sep) == [[s[0]] + rest[0]] + rest[1..];
      assert [s[0]] + rest[0] == w + pt[0];
    }
  }

  /** There are at least two pieces exactly when the separator occurs. */
  lemma SplitPieces(s: string, sep: char)
    ensures |Split(s, sep)| >= 2 <==> sep in s
  {
    if sep in s {
      var r := SplitOnce(s, sep);
      SplitAtSep(r.0, r.1, sep);
    } else {
      SplitSepFree(s, sep);
    }
  }

  lemma SplitSepFree(s: string, sep: char)
    requires sep !in s
    ensures Split(s, sep) == [s]
  {
    SplitPrefix(s, [], sep);
    assert s + [] == s;
  }

  lemma SplitAtSep(a: string, b: string, sep: char)
    requires sep !in a
    ensures Split(a + [sep] + b, sep) == [a] + Split(b, sep)
  {
    var t := [sep] + b;
    SplitPrefix(a, t, sep);
    SplitLeadingSep(b, sep);
    assert a + t == a + [sep] + b;
    assert a + "" == a;
  }

  lemma SplitLeadingSep(b: string, sep: char)
    ensures Split([sep] + b, sep) == [""] + Split(b, sep)
  {
    var t := [sep] + b;
    assert t[0] == sep && t[1..] == b;
  }

  lemma {:induction false} JoinUnique(ps: seq<string>, qs: seq<string>, sep: char)
    requires |ps| >= 1 && forall i :: 0 <= i < |ps| ==> sep !in ps[i]
    requires |qs| >= 1 && forall i :: 0 <= i < |qs| ==> sep !in qs[i]
    requires Join(ps, [sep]) == Join(qs, [sep])
    ensures ps == qs
    decreases |ps|
  {
    var s := Join(ps, [sep]);
    if |ps| > 1 && |qs| > 1 {
      assert s[|ps[0]|] == sep && s[..|ps[0]|] == ps[0];
      assert s[|qs[0]|] == sep && s[..|qs[0]|] == qs[0];
      assert |ps[0]| <= |qs[0]| by {
        assert forall i :: 0 <= i < |qs[0]| ==> s[i] == qs[0][i] && s[i] != sep;
      }
      assert |qs[0]| <= |ps[0]| by {
        assert forall i :: 0 <= i < |ps[0]| ==> s[i] == ps[0][i] && s[i] != sep;
      }
      assert ps[0] == s[..|ps[0]|] == qs[0];
      var k := |ps[0]| + 1;
      assert Join(ps[1..], [sep]) == s[k..] == Join(qs[1..], [sep]);
      JoinUnique(ps[1..], qs[1..], sep);
      assert ps == [ps[0]] + ps[1..];
      assert qs == [qs[0]] + qs[1..];
    }
  }

  /** Splitting a join of separator-free pieces gives the pieces back. */
  lemma SplitOfJoin(parts: seq<string>, sep: char)
    requires |parts| >= 1 && forall i :: 0 <= i < |parts| ==> sep !in parts[i]
    ensures Split(Join(parts, [sep]), sep) == parts
  {
    JoinUnique(Split(Join(parts, [sep]), sep), parts, sep);
  }

  /** Each piece with a space in front of it. */
  function Spaced(parts: seq<string>): (r: seq<string>)
    ensures |r| == |parts| && forall i :: 0 <= i < |parts| ==> r[i] == " " + parts[i]
  {
    seq(|parts|, i requires 0 <= i < |parts| => " " + parts[i])
  }

  lemma {:induction false} SpacedJoin(parts: seq<string>)
    requires parts != []
    ensures " " + Join(parts, ", ") == Join(Spaced(parts), ",")
  {
    if |parts| > 1 {
      SpacedJoin(parts[1..]);
      assert Spaced(parts) == [" " + parts[0]] + Spaced(parts[1..]);
      assert Spaced(parts)[1..] == Spaced(parts[1..]);
    }
  }

  /** `", ".join(parts)` is `",".join` of the same pieces with every piece after the first preceded by a space. */
  lemma CommaSpaceJoin(parts: seq<string>)
    requires parts != []
    ensures Join(parts, ", ") == Join([parts[0]] + Spaced(parts[1..]), ",")
  {
    if |parts| > 1 {
      var rest := parts[1..];
      var pads := [parts[0]] + Spaced(rest);
      assert pads[0] == parts[0] && pads[1..] == Spaced(rest);
      calc {
        Join(parts, ", ");
        parts[0] + ", " + Join(rest, ", ");
        { CommaSpace(parts[0], Join(rest, ", ")); }
        parts[0] + "," + (" " + Join(rest, ", "));
        { SpacedJoin(rest); }
        parts[0] + "," + Join(Spaced(rest), ",");
        Join(pads, ",");
      }
    }
  }

  lemma CommaSpace(a: string, b: string)
    ensures a + ", " + b == a + "," + (" " + b)
  {
    assert ", " == "," + " ";
  }

  /** A leading space is stripped off. */
  lemma StripSpaced(t: string)
    requires t != [] && !IsSpace(t[0]) && !IsSpace(t[|t| - 1])
    ensures Strip(" " + t) == t
  {
    assert (" " + t)[1..] == t;
    assert TrimStart(t) == t;
    assert TrimStart(" " + t) == t;
    assert TrimEnd(t) == t;
  }

  lemma {:induction false} JoinChars(parts: seq<string>, glue: string, c: char)
    requires c !in glue
    requires forall i :: 0 <= i < |parts| ==> c !in parts[i]
    ensures c !in Join(parts, glue)
  {
    if |parts| > 1 {
      JoinChars(parts[1..], glue, c);
    }
  }

  /** `s.split(sep, 1)` when `sep` occurs in `s`: the text before the first
      occurrence and the text after it. */
  function SplitOnce(s: string, sep: char): (r: (string, string))
    requires sep in s
    ensures sep !in r.0
    ensures s == r.0 + [sep] + r.1
  {
    if s[0] == sep then
      ("", s[1..])
    else
      var (a, b) := SplitOnce(s[1..], sep);
      assert s == [s[0]] + s[1..];
      ([s[0]] + a, b)
  }

  // ---------------------------------------------------------------------------
  // integers and their decimal text

  function DigitValue(c: char): nat
    requires IsDigit(c)
  {
    c as int - '0' as int
  }

  function DigitChar(d: nat): (c: char)
    requires d < 10
    ensures IsDigit(c) && DigitValue(c) == d
  {
    ('0' as int + d) as char
  }

  predicate AllDigits(s: string) {
    forall i :: 0 <= i < |s| ==> IsDigit(s[i])
  }

  /** `str(n)` for a non-negative integer: its shortest decimal digits. */
  function NatToStr(n: nat): (s: string)
    ensures s != [] && AllDigits(s)
    decreases n
  {
    if n < 10 then [DigitChar(n)] else NatToStr(n / 10) + [DigitChar(n % 10)]
  }

  /** `str(i)` for any integer. */
  function IntToStr(i: int): string {
    if i < 0 then "-" + NatToStr(-i) else NatToStr(i)
  }

  /** The value of a string of decimal digits (leading zeros allowed). */
  function DigitsValue(s: string): nat
    requires AllDigits(s)
  {
    if s == [] then 0 else 10 * DigitsValue(s[..|s| - 1]) + DigitValue(s[|s| - 1])
  }

  lemma {:induction false} NatToStrValue(n: nat)
    ensures DigitsValue(NatToStr(n)) == n
    decreases n
  {
    if n >= 10 {
      NatToStrValue(n / 10);
      var s := NatToStr(n);
      assert s[..|s| - 1] == NatToStr(n / 10);
    }
  }

  /** A string Python's `int()` accepts once stripped: an optional sign and at
      least one digit. */
  predicate IsIntLiteral(t: string) {
    if t != [] && (t[0] == '-' || t[0] == '+') then t[1..] != [] && AllDigits(t[1..])
    else t != [] && AllDigits(t)
  }

  /** Python's `int(s)` on ASCII text: `None` stands for the `ValueError` it raises. */
  function ParseInt(s: string): (r: Option<int>)
    ensures r.Some? <==> IsIntLiteral(Strip(s))
  {
    var t := Strip(s);
    if t != [] && (t[0] == '-' || t[0] == '+') then
      if t[1..] != [] && AllDigits(t[1..]) then
        var v: int := DigitsValue(t[1..]);
        Some(if t[0] == '-' then -v else v)
      else
        None
    else if t != [] && AllDigits(t) then
      Some(DigitsValue(t))
    else
      None
  }

  /** `int(str(i)) == i`. */
  lemma ParseIntOfIntToStr(i: int)
    ensures ParseInt(IntToStr(i)) == Some(i)
  {
    var s := IntToStr(i);
    var n: nat := if i < 0 then -i else i;
    var d := NatToStr(n);
    NatToStrValue(n);
    if i < 0 {
      assert s[0] == '-' && s[1..] == d;
      assert NoSpace(s) by {
        forall k | 0 <= k < |s| ensures !IsSpace(s[k]) {
          if k > 0 { assert s[k] == d[k - 1]; }
        }
      }
    } else {
      assert NoSpace(s);
    }
    StripNoSpace(s);
  }

  /** A text with a hyphen after its first non-blank character is not an integer. */
  lemma ParseIntInnerHyphen(s: string, k: int)
    requires 0 < k < |Strip(s)| && Strip(s)[k] == '-'
    ensures ParseInt(s) == None
  {
    var t := Strip(s);
    if t[0] == '-' || t[0] == '+' {
      assert t[1..][k - 1] == '-';
    }
  }

  // ---------------------------------------------------------------------------
  // case and replacement

  function UpperChar(c: char): char {
    if 'a' <= c <= 'z' then (c as int - 32) as char else c
  }

  function LowerChar(c: char): char {
    if 'A' <= c <= 'Z' then (c as int + 32) as char else c
  }

  /** `s.upper()` on ASCII letters. */
  function Upper(s: string): (r: string)
    ensures |r| == |s|
    ensures forall i :: 0 <= i < |s| ==> r[i] == UpperChar(s[i])
  {
    if s == [] then [] else [UpperChar(s[0])] + Upper(s[1..])
  }

  /** `s.lower()` on ASCII letters. */
  function Lower(s: string): (r: string)
    ensures |r| == |s|
    ensures forall i :: 0 <= i < |s| ==> r[i] == LowerChar(s[i])
  {
    if s == [] then [] else [LowerChar(s[0])] + Lower(s[1..])
  }

  /** `s.capitalize()` on ASCII letters: the first character upper-cased, the rest lower-cased. */
  function Capitalize(s: string): (r: string)
    ensures |r| == |s|
    ensures s != [] ==> r[0] == UpperChar(s[0])
    ensures forall i :: 1 <= i < |s| ==> r[i] == LowerChar(s[i])
  {
    if s == [] then [] else [UpperChar(s[0])] + Lower(s[1..])
  }

  lemma UpperConcat(a: string, b: string)
    ensures Upper(a + b) == Upper(a) + Upper(b)
  {
    var u, v := Upper(a + b), Upper(a) + Upper(b);
    assert |u| == |v|;
    forall i | 0 <= i < |u| ensures u[i] == v[i] {
      if i < |a| {
        assert (a + b)[i] == a[i];
      } else {
        assert (a + b)[i] == b[i - |a|];
      }
    }
  }

  /** Capitalising ignores the case the text had. */
  lemma CapitalizeUpper(s: string)
    ensures Capitalize(Upper(s)) == Capitalize(s)
  {
    var a, b := Capitalize(Upper(s)), Capitalize(s);
    assert |a| == |b|;
    forall i | 0 <= i < |a| ensures a[i] == b[i] {
      var c := s[i];
      assert 'a' <= c <= 'z' ==> 'A' <= UpperChar(c) <= 'Z' && LowerChar(UpperChar(c)) == c;
    }
  }

  /** `s.replace(a, b)` for one-character `a` and `b`. */
  function ReplaceChar(s: string, a: char, b: char): (r: string)
    ensures |r| == |s|
    ensures forall i :: 0 <= i < |s| ==> r[i] == if s[i] == a then b else s[i]
  {
    if s == [] then [] else [if s[0] == a then b else s[0]] + ReplaceChar(s[1..], a, b)
  }

  lemma {:induction false} ReplaceAbsent(s: string, a: char, b: char)
    requires a !in s
    ensures ReplaceChar(s, a, b) == s
  {
    if s != [] {
      assert a !in s[1..];
      ReplaceAbsent(s[1..], a, b);
    }
  }

  /** `s.replace(a, "")`: `s` with every `a` removed, the rest in order. */
  function RemoveChar(s: string, a: char): (r: string)
    ensures a !in r
    ensures forall c :: c in r <==> c in s && c != a
  {
    if s == [] then [] else (if s[0] == a then [] else [s[0]]) + RemoveChar(s[1..], a)
  }

  lemma {:induction false} RemoveCharConcat(a: string, b: string, c: char)
    ensures RemoveChar(a + b, c) == RemoveChar(a, c) + RemoveChar(b, c)
  {
    if a != [] {
      assert (a + b)[0] == a[0] && (a + b)[1..] == a[1..] + b;
      RemoveCharConcat(a[1..], b, c);
    } else {
      assert a + b == b;
    }
  }

  lemma {:induction false} RemoveAbsent(s: string, c: char)
    requires c !in s
    ensures RemoveChar(s, c) == s
  {
    if s != [] {
      assert c !in s[1..];
      RemoveAbsent(s[1..], c);
    }
  }

  lemma ReplaceAround(a: string, b: string, x: char, y: char)
    requires x !in a
    ensures ReplaceChar(a + [x] + b, x, y) == a + [y] + ReplaceChar(b, x, y)
  {
    var s := a + [x] + b;
    var r := ReplaceChar(s, x, y);
    var t := a + [y] + ReplaceChar(b, x, y);
    forall i | 0 <= i < |s| ensures r[i] == t[i] {
      if i < |a| {
        assert s[i] == a[i] && a[i] in a;
      } else if i > |a| {
        assert s[i] == b[i - |a| - 1];
      }
    }
  }
}
