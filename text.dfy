/**
 * The string operations `get_char_types` and the result assembly rely on:
 * `str::split`, `str::trim` (on ASCII whitespace) and `u32::to_string`.
 */
module Text {

  // ---------------------------------------------------------------------------
  // split

  /** `s.split(sep)`: the pieces between separators, in order. The empty string gives one empty piece. */
  function Split(s: string, sep: char): (pieces: seq<string>)
    ensures |pieces| >= 1
    ensures forall i :: 0 <= i < |pieces| ==> sep !in pieces[i]
  {
    if s == [] then [""]
    else
      var rest := Split(s[1..], sep);
      if s[0] == sep then [""] + rest else [[s[0]] + rest[0]] + rest[1..]
  }

  /** The pieces glued back together with `sep` between them. */
  function Join(pieces: seq<string>, sep: char): string
  {
    if pieces == [] then ""
    else if |pieces| == 1 then pieces[0]
    else pieces[0] + [sep] + Join(pieces[1..], sep)
  }

  /** Splitting loses nothing: joining the pieces gives the input back. */
  lemma {:induction false} JoinOfSplit(s: string, sep: char)
    ensures Join(Split(s, sep), sep) == s
  {
    if s != [] {
      var rest := Split(s[1..], sep);
      JoinOfSplit(s[1..], sep);
      if s[0] == sep {
        assert Split(s, sep) == [""] + rest;
        assert ([""] + rest)[1..] == rest;
      } else {
        var pieces := [[s[0]] + rest[0]] + rest[1..];
        assert pieces[1..] == rest[1..];
        if |rest| > 1 {
          assert Join(rest, sep) == rest[0] + [sep] + Join(rest[1..], sep);
        }
        assert s == [s[0]] + s[1..];
      }
    }
  }

  /** Splitting a separator-free prefix off: `split` of `a + sep + b` is `a` followed by the pieces of `b`. */
  lemma {:induction false} SplitAfterPiece(a: string, sep: char, b: string)
    requires sep !in a
    ensures Split(a + [sep] + b, sep) == [a] + Split(b, sep)
  {
    if a == [] {
      assert a + [sep] + b == [sep] + b;
      assert ([sep] + b)[1..] == b;
    } else {
      assert (a + [sep] + b)[1..] == a[1..] + [sep] + b;
      SplitAfterPiece(a[1..], sep, b);
      assert [a[0]] + a[1..] == a;
    }
  }

  /** A separator-free string is one piece. */
  lemma {:induction false} SplitWhole(a: string, sep: char)
    requires sep !in a
    ensures Split(a, sep) == [a]
  {
    if a != [] {
      SplitWhole(a[1..], sep);
      assert [a[0]] + a[1..] == a;
    }
  }

  /** Joining separator-free pieces and splitting again gives the same pieces. */
  lemma {:induction false} SplitOfJoin(pieces: seq<string>, sep: char)
    requires |pieces| >= 1
    requires forall i :: 0 <= i < |pieces| ==> sep !in pieces[i]
    ensures Split(Join(pieces, sep), sep) == pieces
  {
    if |pieces| == 1 {
      SplitWhole(pieces[0], sep);
    } else {
      SplitOfJoin(pieces[1..], sep);
      SplitAfterPiece(pieces[0], sep, Join(pieces[1..], sep));
      assert [pieces[0]] + pieces[1..] == pieces;
    }
  }

  lemma {:induction false} JoinAppend(pieces: seq<string>, last: string, sep: char)
    requires |pieces| >= 1
    ensures Join(pieces + [last], sep) == Join(pieces, sep) + [sep] + last
  {
    if |pieces| == 1 {
      assert (pieces + [last])[1..] == [last];
    } else {
      assert (pieces + [last])[1..] == pieces[1..] + [last];
      JoinAppend(pieces[1..], last, sep);
    }
  }

  /** A separator and a separator-free tail add one last piece. */
  lemma SplitAppend(s: string, sep: char, last: string)
    requires sep !in last
    ensures Split(s + [sep] + last, sep) == Split(s, sep) + [last]
  {
    var pieces := Split(s, sep);
    JoinOfSplit(s, sep);
    var extended := pieces + [last];
    forall i | 0 <= i < |extended|
      ensures sep !in extended[i]
    {
      if i < |pieces| {
        assert extended[i] == pieces[i];
      }
    }
    JoinAppend(pieces, last, sep);
    SplitOfJoin(extended, sep);
  }

  // ---------------------------------------------------------------------------
  // trim

  /** `char::is_whitespace` on ASCII: tab, line feed, vertical tab, form feed, carriage return and space. */
  predicate IsWhitespace(c: char)
  {
    c == ' ' || ('\t' <= c <= '\r')
  }

  /** Every character of `w` is whitespace. */
  predicate AllWhitespace(w: string)
  {
    forall k :: 0 <= k < |w| ==> IsWhitespace(w[k])
  }

  /** `str::trim_start`: drops the leading whitespace run and keeps the rest. */
  function TrimStart(s: string): (r: string)
    ensures |r| <= |s| && r == s[|s| - |r|..]
    ensures AllWhitespace(s[..|s| - |r|])
    ensures r != [] ==> !IsWhitespace(r[0])
  {
    if s != [] && IsWhitespace(s[0]) then TrimStart(s[1..]) else s
  }

  /** `str::trim_end`: drops the trailing whitespace run and keeps the rest. */
  function TrimEnd(s: string): (r: string)
    ensures |r| <= |s| && r == s[..|r|]
    ensures AllWhitespace(s[|r|..])
    ensures r != [] ==> !IsWhitespace(r[|r| - 1])
  {
    if s != [] && IsWhitespace(s[|s| - 1]) then TrimEnd(s[..|s| - 1]) else s
  }

  /**
   * `str::trim`: both whitespace runs cut off, leaving a string that neither
   * starts nor ends with whitespace. `TrimCut` shows it is the slice between
   * the two runs.
   */
  function Trim(s: string): (r: string)
    ensures r != [] ==> !IsWhitespace(r[0]) && !IsWhitespace(r[|r| - 1])
  {
    TrimEnd(TrimStart(s))
  }

  /** `TrimStart(s)` is `s[i..]` for the one `i` that ends the leading whitespace run. */
  lemma {:induction false} TrimStartAt(s: string, i: nat)
    requires i <= |s| && AllWhitespace(s[..i])
    requires i < |s| ==> !IsWhitespace(s[i])
    ensures TrimStart(s) == s[i..]
  {
    if i > 0 {
      assert s[..i][0] == s[0];
      assert s[1..][..i - 1] == s[..i][1..];
      TrimStartAt(s[1..], i - 1);
      assert s[1..][i - 1..] == s[i..];
    }
  }

  /** `TrimEnd(s)` is `s[..j]` for the one `j` that starts the trailing whitespace run. */
  lemma {:induction false} TrimEndAt(s: string, j: nat)
    requires j <= |s| && AllWhitespace(s[j..])
    requires 0 < j ==> !IsWhitespace(s[j - 1])
    ensures TrimEnd(s) == s[..j]
  {
    if j < |s| {
      assert s[j..][|s| - 1 - j] == s[|s| - 1];
      var short := s[..|s| - 1];
      assert short[j..] == s[j..][..|s| - 1 - j];
      TrimEndAt(short, j);
      assert short[..j] == s[..j];
    } else {
      assert s[..j] == s;
    }
  }

  /**
   * `Trim(s)` is the slice `s[i..j]` left once the whitespace runs at both
   * ends are cut off: nothing before `i` or from `j` on is kept, and the kept
   * slice neither starts nor ends with whitespace.
   */
  lemma TrimCut(s: string) returns (i: nat, j: nat)
    ensures i <= j <= |s| && Trim(s) == s[i..j]
    ensures forall k :: 0 <= k < i ==> IsWhitespace(s[k])
    ensures forall k :: j <= k < |s| ==> IsWhitespace(s[k])
    ensures i < j ==> !IsWhitespace(s[i]) && !IsWhitespace(s[j - 1])
  {
    var t := TrimStart(s);
    i := |s| - |t|;
    PrefixBlank(s, i);
    var r := TrimEnd(t);
    j := i + |r|;
    assert t[|r|..] == s[j..];
    SuffixBlank(s, j);
    assert r == t[..|r|] == s[i..j];
  }

  lemma PrefixBlank(s: string, i: nat)
    requires i <= |s| && AllWhitespace(s[..i])
    ensures forall k :: 0 <= k < i ==> IsWhitespace(s[k])
  {
    assert forall k :: 0 <= k < i ==> s[..i][k] == s[k];
  }

  lemma SuffixBlank(s: string, j: nat)
    requires j <= |s| && AllWhitespace(s[j..])
    ensures forall k :: j <= k < |s| ==> IsWhitespace(s[k])
  {
    assert forall k :: j <= k < |s| ==> s[j..][k - j] == s[k];
  }

  /** A string that neither starts nor ends with whitespace trims to itself. */
  lemma TrimClean(t: string)
    requires t != [] && !IsWhitespace(t[0]) && !IsWhitespace(t[|t| - 1])
    ensures Trim(t) == t
  {
    TrimStartAt(t, 0);
    assert t[0..] == t;
    assert t[|t|..] == [];
    TrimEndAt(t, |t|);
    assert t[..|t|] == t;
  }

  /** One leading space is trimmed away. */
  lemma TrimIndented(t: string)
    requires t != [] && !IsWhitespace(t[0]) && !IsWhitespace(t[|t| - 1])
    ensures Trim(" " + t) == t
  {
    assert (" " + t)[..1] == " ";
    TrimStartAt(" " + t, 1);
    assert (" " + t)[1..] == t;
    TrimClean(t);
  }

  /** Surrounding whitespace is ignored: padding a string that has no whitespace at its ends and trimming gives it back. */
  lemma TrimPadded(left: string, t: string, right: string)
    requires AllWhitespace(left) && AllWhitespace(right)
    requires t != [] ==> !IsWhitespace(t[0]) && !IsWhitespace(t[|t| - 1])
    requires t == [] ==> right == []
    ensures Trim(left + t + right) == t
  {
    var s := left + t + right;
    assert s[..|left|] == left;
    assert |left| < |s| ==> s[|left|] == t[0];
    TrimStartAt(s, |left|);
    assert s[|left|..] == t + right;
    assert (t + right)[|t|..] == right;
    TrimEndAt(t + right, |t|);
    assert (t + right)[..|t|] == t;
  }

  // ---------------------------------------------------------------------------
  // to_string

  /** The character of decimal digit `d`. */
  function DigitChar(d: nat): (c: char)
    requires d < 10
  {
    ('0' as int + d) as char
  }

  predicate IsDigit(c: char)
  {
    '0' <= c <= '9'
  }

  /** `n.to_string()`: the shortest decimal form of `n`, most significant digit first. */
  function DecimalString(n: nat): (s: string)
    ensures |s| >= 1
    ensures forall i :: 0 <= i < |s| ==> IsDigit(s[i])
    ensures n > 0 ==> s[0] != '0'
    ensures n == 0 ==> s == "0"
  {
    if n < 10 then [DigitChar(n)] else DecimalString(n / 10) + [DigitChar(n % 10)]
  }

  /** The value a string of decimal digits denotes. */
  function DecimalValue(s: string): nat
    requires forall i :: 0 <= i < |s| ==> IsDigit(s[i])
  {
    if s == [] then 0
    else
      assert IsDigit(s[|s| - 1]);
      10 * DecimalValue(s[..|s| - 1]) + (s[|s| - 1] as int - '0' as int)
  }

  /** Reading the decimal form back gives the number. */
  lemma {:induction false} DecimalRoundTrip(n: nat)
    ensures DecimalValue(DecimalString(n)) == n
  {
    var s := DecimalString(n);
    if n >= 10 {
      DecimalRoundTrip(n / 10);
      assert s[..|s| - 1] == DecimalString(n / 10);
    }
  }
}
