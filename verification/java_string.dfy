/**
 * The parts of java.lang.String, java.lang.Long and java.io.File that the
 * face database relies on, over strings as sequences of characters.
 */
module JavaString {
  import opened Wrappers

  /** String.endsWith: `suffix` is the tail of `s`. */
  predicate EndsWith(s: string, suffix: string) {
    |suffix| <= |s| && s[|s| - |suffix|..] == suffix
  }

  /** A string ends with `suffix` exactly when it is some text followed by `suffix`. */
  lemma EndsWithAppend(s: string, suffix: string)
    ensures EndsWith(s, suffix) <==> exists p :: s == p + suffix
  {
    if EndsWith(s, suffix) {
      assert s == s[..|s| - |suffix|] + suffix;
    }
    if exists p :: s == p + suffix {
      var p :| s == p + suffix;
      assert s[|s| - |suffix|..] == suffix;
    }
  }

  /** String.indexOf(char): the position of the first `d` in `s`, None for -1. */
  function IndexOf(s: string, d: char): (r: Option<nat>)
    ensures r.None? <==> d !in s
    ensures r.Some? ==> r.value < |s| && s[r.value] == d
    ensures r.Some? ==> forall k :: 0 <= k < r.value ==> s[k] != d
  {
    if |s| == 0 then None
    else if s[0] == d then Some(0)
    else
      match IndexOf(s[1..], d)
      case None => None
      case Some(i) => Some(i + 1)
  }

  /**
   * The text before the first `d`, or all of `s` when `d` does not occur:
   * the longest prefix of `s` free of `d`.
   */
  function PrefixBefore(s: string, d: char): (r: string)
    ensures |r| <= |s| && r == s[..|r|]
    ensures d !in r
    ensures |r| < |s| ==> s[|r|] == d
    ensures |r| == |s| <==> d !in s
  {
    match IndexOf(s, d)
    case None => s
    case Some(i) => s[..i]
  }

  /** Any `d`-free prefix of `s` that stops at a `d` or at the end is PrefixBefore(s, d). */
  lemma PrefixBeforeUnique(s: string, d: char, p: string)
    requires |p| <= |s| && p == s[..|p|]
    requires d !in p
    requires |p| < |s| ==> s[|p|] == d
    ensures p == PrefixBefore(s, d)
  {
    var q := PrefixBefore(s, d);
    if |p| < |q| {
      assert false;
    } else if |q| < |p| {
      assert false;
    }
  }

  /** Text before the first `d` is unaffected by what follows an inserted `d`. */
  lemma PrefixBeforeConcat(a: string, d: char, b: string)
    ensures PrefixBefore(a + [d] + b, d) == PrefixBefore(a, d)
  {
    var s := a + [d] + b;
    var p := PrefixBefore(a, d);
    assert s[..|p|] == a[..|p|];
    PrefixBeforeUnique(s, d, p);
  }

  /**
   * The text after the last `d`, or all of `s` when `d` does not occur;
   * with the path separator for `d` this is java.io.File.getName.
   */
  function AfterLast(s: string, d: char): (r: string)
    ensures |r| <= |s| && r == s[|s| - |r|..]
    ensures d !in r
    ensures |r| < |s| ==> s[|s| - |r| - 1] == d
  {
    if |s| == 0 then ""
    else if s[|s| - 1] == d then ""
    else AfterLast(s[..|s| - 1], d) + [s[|s| - 1]]
  }

  /** A name placed after a separator is recovered by AfterLast when it holds no separator. */
  lemma {:induction false} AfterLastAppend(a: string, d: char, n: string)
    requires d !in n
    ensures AfterLast(a + [d] + n, d) == n
  {
    var s := a + [d] + n;
    if |n| == 0 {
      assert s[|s| - 1] == d;
    } else {
      var m := n[..|n| - 1];
      var c := n[|n| - 1];
      assert c != d;
      assert s[..|s| - 1] == a + [d] + m;
      assert s[|s| - 1] == c;
      AfterLastAppend(a, d, m);
      assert AfterLast(s, d) == AfterLast(a + [d] + m, d) + [c];
      assert m + [c] == n;
    }
  }

  /**
   * The pieces of `s` between occurrences of `d`, all kept (empty ones
   * included), built one character at a time: a `d` starts a new piece,
   * any other character extends the last one.
   */
  function Pieces(s: string, d: char): (ps: seq<string>)
    ensures |ps| >= 1
    ensures |ps| == 1 <==> d !in s
    ensures ps[|ps| - 1] == "" <==> (|s| == 0 || s[|s| - 1] == d)
    decreases |s|
  {
    if |s| == 0 then [""]
    else
      var t, c := s[..|s| - 1], s[|s| - 1];
      assert s == t + [c];
      var ps := Pieces(t, d);
      if c == d then ps + [""]
      else ps[..|ps| - 1] + [ps[|ps| - 1] + [c]]
  }

  /** The text before the first `d` of `t` is unchanged by appending a character, once `t` holds a `d`. */
  lemma PrefixBeforeSnoc(t: string, c: char, d: char)
    requires d in t || c == d
    ensures PrefixBefore(t + [c], d) == PrefixBefore(t, d)
  {
    if d in t {
      var p := PrefixBefore(t, d);
      assert (t + [c])[..|p|] == p;
      assert (t + [c])[|p|] == t[|p|];
      PrefixBeforeUnique(t + [c], d, p);
    } else {
      PrefixBeforeConcat(t, d, "");
      assert t + [d] + "" == t + [c];
    }
  }

  /** The first piece is the text before the first `d`. */
  lemma {:induction false} PiecesHead(s: string, d: char)
    ensures Pieces(s, d)[0] == PrefixBefore(s, d)
    decreases |s|
  {
    if |s| > 0 {
      var t, c := s[..|s| - 1], s[|s| - 1];
      assert s == t + [c];
      PiecesHead(t, d);
      if d in t || c == d {
        PrefixBeforeSnoc(t, c, d);
      }
    }
  }

  /** No piece contains the delimiter. */
  lemma {:induction false} PiecesFree(s: string, d: char)
    ensures forall k :: 0 <= k < |Pieces(s, d)| ==> d !in Pieces(s, d)[k]
    decreases |s|
  {
    if |s| > 0 {
      var t, c := s[..|s| - 1], s[|s| - 1];
      assert s == t + [c];
      PiecesFree(t, d);
    }
  }

  /** The pieces glued back together with `d` between them. */
  function Join(ps: seq<string>, d: char): string
    requires |ps| >= 1
  {
    if |ps| == 1 then ps[0] else Join(ps[..|ps| - 1], d) + [d] + ps[|ps| - 1]
  }

  /** Extending the last piece by a character extends the joined string by it. */
  lemma JoinExtendLast(ps: seq<string>, c: char, d: char)
    requires |ps| >= 1
    ensures Join(ps[..|ps| - 1] + [ps[|ps| - 1] + [c]], d) == Join(ps, d) + [c]
  {
    var qs := ps[..|ps| - 1] + [ps[|ps| - 1] + [c]];
    if |ps| > 1 {
      assert qs[..|qs| - 1] == ps[..|ps| - 1];
    }
  }

  /** Splitting and joining again gives back the original string. */
  lemma {:induction false} JoinPieces(s: string, d: char)
    ensures Join(Pieces(s, d), d) == s
    decreases |s|
  {
    if |s| > 0 {
      var t, c := s[..|s| - 1], s[|s| - 1];
      assert s == t + [c];
      var ps := Pieces(t, d);
      JoinPieces(t, d);
      if c == d {
        assert (ps + [""])[..|ps|] == ps;
      } else {
        JoinExtendLast(ps, c, d);
      }
    }
  }

  /** Removal of the trailing empty strings, as String.split with limit 0 does. */
  function DropTrailingEmpty(ps: seq<string>): (r: seq<string>)
    ensures |r| <= |ps| && r == ps[..|r|]
    ensures |r| == 0 || r[|r| - 1] != ""
    ensures forall k :: |r| <= k < |ps| ==> ps[k] == ""
  {
    if |ps| == 0 then []
    else if ps[|ps| - 1] != "" then ps
    else DropTrailingEmpty(ps[..|ps| - 1])
  }

  /**
   * String.split(regex) for a regex matching the single character `d`:
   * no match gives the one-element array {s}; otherwise the pieces with
   * trailing empty strings removed, which may leave no element at all.
   */
  function Split(s: string, d: char): (r: seq<string>)
    ensures d !in s ==> r == [s]
    ensures |s| > 0 && s[|s| - 1] != d ==> r == Pieces(s, d)
    ensures |r| > 0 ==> r[0] == PrefixBefore(s, d)
  {
    PiecesHead(s, d);
    if d !in s then [s] else DropTrailingEmpty(Pieces(s, d))
  }

  predicate IsDigit(c: char) {
    '0' <= c <= '9'
  }

  function DigitChar(v: nat): (c: char)
    requires v < 10
    ensures IsDigit(c)
  {
    (('0' as int) + v) as char
  }

  function DigitValue(c: char): (v: nat)
    requires IsDigit(c)
    ensures v < 10 && DigitChar(v) == c
  {
    (c as int) - ('0' as int)
  }

  /** Long.toString of a non-negative value: decimal digits without leading zeros. */
  function LongToString(n: nat): (s: string)
    ensures |s| >= 1
    ensures forall k :: 0 <= k < |s| ==> IsDigit(s[k])
    ensures |s| > 1 ==> s[0] != '0'
  {
    if n < 10 then [DigitChar(n)] else LongToString(n / 10) + [DigitChar(n % 10)]
  }

  /** The value of a string of decimal digits (Long.parseLong on digit strings). */
  function ParseDecimal(s: string): nat
    requires forall k :: 0 <= k < |s| ==> IsDigit(s[k])
  {
    if |s| == 0 then 0 else ParseDecimal(s[..|s| - 1]) * 10 + DigitValue(s[|s| - 1])
  }

  /** Parsing the decimal rendering gives the number back. */
  lemma {:induction false} LongToStringRoundTrip(n: nat)
    ensures ParseDecimal(LongToString(n)) == n
  {
    var s := LongToString(n);
    if n >= 10 {
      LongToStringRoundTrip(n / 10);
      assert s[..|s| - 1] == LongToString(n / 10);
      assert DigitValue(s[|s| - 1]) == n % 10;
    } else {
      assert DigitValue(s[0]) == n;
    }
  }

  /** Distinct numbers have distinct decimal renderings. */
  lemma LongToStringInjective(m: nat, n: nat)
    ensures LongToString(m) == LongToString(n) <==> m == n
  {
    if LongToString(m) == LongToString(n) {
      LongToStringRoundTrip(m);
      LongToStringRoundTrip(n);
    }
  }
}
