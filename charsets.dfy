/**
 * The four character pools of the generator (src/charset.rs).
 *
 * Each pool is built as the Rust code builds it: an inclusive range of byte
 * codes, mapped to characters, filtered by a classification predicate.
 */
module Charsets {

  /** Rust's u8. */
  newtype byte = x: int | 0 <= x < 256

  /** The character classes a password may draw from. */
  datatype CharTypes = LowercaseLetters | UppercaseLetters | Digits | Special

  /** The built pools. Digits are kept as bytes, as the source keeps them. */
  datatype Charset = Charset(
    lowercaseAlphabet: seq<char>,
    uppercaseAlphabet: seq<char>,
    digits: seq<byte>,
    special: seq<char>)

  // ---------------------------------------------------------------------------
  // Iterator building blocks

  /** The inclusive range `lo..=hi` of bytes, in ascending order. */
  function ByteRange(lo: byte, hi: byte): seq<byte>
  {
    if hi < lo then []
    else seq(hi as int - lo as int + 1, i requires 0 <= i < hi as int - lo as int + 1 => (lo as int + i) as byte)
  }

  /** `c as char` for a byte: the character with that code. */
  function ByteToChar(b: byte): char
  {
    (b as int) as char
  }

  /** `.map(|c| c as char)` over a sequence of bytes. */
  function ToChars(bs: seq<byte>): seq<char>
  {
    seq(|bs|, i requires 0 <= i < |bs| => ByteToChar(bs[i]))
  }

  /** `.filter(p)`: the elements of `s` that satisfy `p`, in their order. */
  function Filter<T>(s: seq<T>, p: T -> bool): seq<T>
  {
    if s == [] then [] else (if p(s[0]) then [s[0]] else []) + Filter(s[1..], p)
  }

  // ---------------------------------------------------------------------------
  // Character classification (ASCII; the pools only ever ask about codes below 0x80)

  /** `char::is_alphabetic`, on the ASCII characters it is asked about here. */
  predicate IsAlphabetic(c: char)
  {
    ('A' <= c <= 'Z') || ('a' <= c <= 'z')
  }

  /** `u8::is_ascii_digit`. */
  predicate IsAsciiDigit(b: byte)
  {
    '0' as int <= b as int <= '9' as int
  }

  /** `char::is_ascii_alphanumeric`. */
  predicate IsAsciiAlphanumeric(c: char)
  {
    IsAlphabetic(c) || ('0' <= c <= '9')
  }

  /** `char::is_ascii_control`: codes 0x00..=0x1F and 0x7F. */
  predicate IsAsciiControl(c: char)
  {
    c as int < 0x20 || c as int == 0x7F
  }

  // ---------------------------------------------------------------------------
  // Charset::new

  /** The `uppercase_alphabet` chain: 'A'..='Z' as characters, kept if alphabetic. */
  function UppercasePool(): seq<char>
  {
    Filter(ToChars(ByteRange('A' as int as byte, 'Z' as int as byte)), IsAlphabetic)
  }

  /** The `lowercase_alphabet` chain: 'a'..='z' as characters, kept if alphabetic. */
  function LowercasePool(): seq<char>
  {
    Filter(ToChars(ByteRange('a' as int as byte, 'z' as int as byte)), IsAlphabetic)
  }

  /** The `digits` chain: the bytes '0'..='9', kept if ASCII digits (`c as u8` is the identity). */
  function DigitBytes(): seq<byte>
  {
    Filter(ByteRange('0' as int as byte, '9' as int as byte), IsAsciiDigit)
  }

  /** The `special` chain: codes 32..=126 as characters, minus the alphanumerics, minus the controls. */
  function SpecialPool(): seq<char>
  {
    Filter(Filter(ToChars(ByteRange(32, 126)), c => !IsAsciiAlphanumeric(c)), c => !IsAsciiControl(c))
  }

  /**
   * `Charset::new()`: the four chains, each equal to a run (or, for the
   * special pool, four runs) of consecutive ASCII codes.
   */
  function New(): (cs: Charset)
    ensures cs.uppercaseAlphabet == CharRange('A' as nat, 'Z' as nat)
    ensures cs.lowercaseAlphabet == CharRange('a' as nat, 'z' as nat)
    ensures cs.digits == ByteRange(48, 57)
    ensures cs.special == CharRange(32, 47) + (CharRange(58, 64) + (CharRange(91, 96) + CharRange(123, 126)))
  {
    UppercaseExact();
    LowercaseExact();
    DigitsExact();
    SpecialRuns();
    Charset(
      lowercaseAlphabet := LowercasePool(),
      uppercaseAlphabet := UppercasePool(),
      digits := DigitBytes(),
      special := SpecialPool())
  }

  // ---------------------------------------------------------------------------
  // Reference definitions the pools are compared with

  /** The characters with codes `lo..=hi`, in ascending order. */
  function CharRange(lo: nat, hi: nat): seq<char>
    requires hi < 0xD800
  {
    if hi < lo then [] else seq(hi - lo + 1, i requires 0 <= i < hi - lo + 1 => (lo + i) as char)
  }

  ghost predicate Increasing(s: seq<char>)
  {
    forall i, j :: 0 <= i < j < |s| ==> s[i] < s[j]
  }

  /** Every character of `s` is printable ASCII, space through tilde. */
  ghost predicate Printable(s: seq<char>)
  {
    forall i :: 0 <= i < |s| ==> 0x20 <= s[i] as int <= 0x7E
  }

  ghost predicate Disjoint(a: seq<char>, b: seq<char>)
  {
    forall i, j :: 0 <= i < |a| && 0 <= j < |b| ==> a[i] != b[j]
  }

  // ---------------------------------------------------------------------------
  // Lemmas about Filter

  lemma {:induction false} FilterMembership<T>(s: seq<T>, p: T -> bool, x: T)
    ensures x in Filter(s, p) <==> x in s && p(x)
  {
    if s != [] {
      FilterMembership(s[1..], p, x);
      assert s == [s[0]] + s[1..];
    }
  }

  lemma {:induction false} FilterKeepsAll<T>(s: seq<T>, p: T -> bool)
    requires forall i :: 0 <= i < |s| ==> p(s[i])
    ensures Filter(s, p) == s
  {
    if s != [] {
      FilterKeepsAll(s[1..], p);
      assert s == [s[0]] + s[1..];
    }
  }

  lemma {:induction false} FilterDropsAll<T>(s: seq<T>, p: T -> bool)
    requires forall i :: 0 <= i < |s| ==> !p(s[i])
    ensures Filter(s, p) == []
  {
    if s != [] {
      FilterDropsAll(s[1..], p);
    }
  }

  lemma {:induction false} FilterConcat<T>(a: seq<T>, b: seq<T>, p: T -> bool)
    ensures Filter(a + b, p) == Filter(a, p) + Filter(b, p)
  {
    if a != [] {
      assert (a + b)[1..] == a[1..] + b;
      FilterConcat(a[1..], b, p);
    } else {
      assert a + b == b;
    }
  }

  lemma {:induction false} FilterIncreasing(s: seq<char>, p: char -> bool)
    requires Increasing(s)
    ensures Increasing(Filter(s, p))
  {
    if s != [] {
      FilterIncreasing(s[1..], p);
      var rest := Filter(s[1..], p);
      forall j | 0 <= j < |rest|
        ensures s[0] < rest[j]
      {
        FilterMembership(s[1..], p, rest[j]);
      }
    }
  }

  // ---------------------------------------------------------------------------
  // Lemmas about ranges

  lemma CharsOfRange(lo: byte, hi: byte)
    requires lo <= hi
    ensures ToChars(ByteRange(lo, hi)) == CharRange(lo as nat, hi as nat)
  {
  }

  lemma {:induction false} CharRangeSplit(lo: nat, mid: nat, hi: nat)
    requires lo <= mid <= hi < 0xD800
    ensures CharRange(lo, hi) == CharRange(lo, mid) + CharRange(mid + 1, hi)
  {
    var left, right := CharRange(lo, mid), CharRange(mid + 1, hi);
    assert |CharRange(lo, hi)| == |left| + |right|;
    forall k | 0 <= k < |left| + |right|
      ensures CharRange(lo, hi)[k] == (left + right)[k]
    {
      if k >= |left| {
        assert (left + right)[k] == right[k - |left|];
      }
    }
  }

  lemma CharRangeIncreasing(lo: nat, hi: nat)
    requires hi < 0xD800
    ensures Increasing(CharRange(lo, hi))
    ensures |CharRange(lo, hi)| == if hi < lo then 0 else hi - lo + 1
  {
  }

  // ---------------------------------------------------------------------------
  // The pools

  /** The uppercase pool is exactly 'A'..='Z'; the alphabetic filter removes nothing. */
  lemma UppercaseExact()
    ensures UppercasePool() == CharRange('A' as nat, 'Z' as nat)
    ensures |UppercasePool()| == 26
    ensures Filter(ToChars(ByteRange('A' as int as byte, 'Z' as int as byte)), IsAlphabetic)
         == ToChars(ByteRange('A' as int as byte, 'Z' as int as byte))
  {
    var s := ToChars(ByteRange('A' as int as byte, 'Z' as int as byte));
    CharsOfRange('A' as int as byte, 'Z' as int as byte);
    FilterKeepsAll(s, IsAlphabetic);
  }

  /** The lowercase pool is exactly 'a'..='z'; the alphabetic filter removes nothing. */
  lemma LowercaseExact()
    ensures LowercasePool() == CharRange('a' as nat, 'z' as nat)
    ensures |LowercasePool()| == 26
    ensures Filter(ToChars(ByteRange('a' as int as byte, 'z' as int as byte)), IsAlphabetic)
         == ToChars(ByteRange('a' as int as byte, 'z' as int as byte))
  {
    var s := ToChars(ByteRange('a' as int as byte, 'z' as int as byte));
    CharsOfRange('a' as int as byte, 'z' as int as byte);
    FilterKeepsAll(s, IsAlphabetic);
  }

  /** The digit pool is exactly the bytes 48..=57. */
  lemma DigitsExact()
    ensures DigitBytes() == ByteRange(48, 57)
    ensures |DigitBytes()| == 10
    ensures forall i :: 0 <= i < 10 ==> DigitBytes()[i] as int == '0' as int + i
  {
    FilterKeepsAll(ByteRange(48, 57), IsAsciiDigit);
  }

  /** No code in 32..=126 is an ASCII control, so the second special filter is a no-op. */
  lemma ControlFilterIsNoOp()
    ensures var noAlnum := Filter(ToChars(ByteRange(32, 126)), c => !IsAsciiAlphanumeric(c));
            Filter(noAlnum, c => !IsAsciiControl(c)) == noAlnum
  {
    var s := ToChars(ByteRange(32, 126));
    var noAlnum := Filter(s, c => !IsAsciiAlphanumeric(c));
    forall i | 0 <= i < |noAlnum|
      ensures !IsAsciiControl(noAlnum[i])
    {
      FilterMembership(s, c => !IsAsciiAlphanumeric(c), noAlnum[i]);
    }
    FilterKeepsAll(noAlnum, c => !IsAsciiControl(c));
  }

  /** Filtering `r1 + (r2 + rest)` where `p` keeps all of `r1` and none of `r2`. */
  lemma FilterKeepDrop(r1: seq<char>, r2: seq<char>, rest: seq<char>, p: char -> bool)
    requires forall i :: 0 <= i < |r1| ==> p(r1[i])
    requires forall i :: 0 <= i < |r2| ==> !p(r2[i])
    ensures Filter(r1 + (r2 + rest), p) == r1 + Filter(rest, p)
  {
    FilterConcat(r1, r2 + rest, p);
    FilterConcat(r2, rest, p);
    FilterKeepsAll(r1, p);
    FilterDropsAll(r2, p);
    assert Filter(r2 + rest, p) == [] + Filter(rest, p) == Filter(rest, p);
  }

  /** Punctuation and digit/letter runs of printable ASCII, split at the alphanumerics. */
  lemma PrintableRuns()
    ensures CharRange(32, 126)
         == CharRange(32, 47) + (CharRange(48, 57) + (CharRange(58, 64) + (CharRange(65, 90)
          + (CharRange(91, 96) + (CharRange(97, 122) + CharRange(123, 126))))))
  {
    CharRangeSplit(32, 47, 126);
    CharRangeSplit(48, 57, 126);
    CharRangeSplit(58, 64, 126);
    CharRangeSplit(65, 90, 126);
    CharRangeSplit(91, 96, 126);
    CharRangeSplit(97, 122, 126);
  }

  /** Filtering alternating kept and dropped runs keeps exactly the kept runs. */
  lemma FilterRuns(r1: seq<char>, r2: seq<char>, r3: seq<char>, r4: seq<char>,
                   r5: seq<char>, r6: seq<char>, r7: seq<char>, p: char -> bool)
    requires forall i :: 0 <= i < |r1| ==> p(r1[i])
    requires forall i :: 0 <= i < |r2| ==> !p(r2[i])
    requires forall i :: 0 <= i < |r3| ==> p(r3[i])
    requires forall i :: 0 <= i < |r4| ==> !p(r4[i])
    requires forall i :: 0 <= i < |r5| ==> p(r5[i])
    requires forall i :: 0 <= i < |r6| ==> !p(r6[i])
    requires forall i :: 0 <= i < |r7| ==> p(r7[i])
    ensures Filter(r1 + (r2 + (r3 + (r4 + (r5 + (r6 + r7))))), p) == r1 + (r3 + (r5 + r7))
  {
    FilterKeepDrop(r5, r6, r7, p);
    FilterKeepsAll(r7, p);
    FilterKeepDrop(r3, r4, r5 + (r6 + r7), p);
    FilterKeepDrop(r1, r2, r3 + (r4 + (r5 + (r6 + r7))), p);
  }

  /** The special pool is the non-alphanumerics of 32..=126 (the control filter dropped). */
  lemma SpecialIsNonAlphanumeric()
    ensures SpecialPool() == Filter(CharRange(32, 126), c => !IsAsciiAlphanumeric(c))
  {
    ControlFilterIsNoOp();
    CharsOfRange(32, 126);
  }

  /** The non-alphanumerics of 32..=126 are four runs of punctuation. */
  lemma PunctuationRuns()
    ensures Filter(CharRange(32, 126), c => !IsAsciiAlphanumeric(c))
         == CharRange(32, 47) + (CharRange(58, 64) + (CharRange(91, 96) + CharRange(123, 126)))
  {
    PrintableRuns();
    FilterRuns(CharRange(32, 47), CharRange(48, 57), CharRange(58, 64), CharRange(65, 90),
               CharRange(91, 96), CharRange(97, 122), CharRange(123, 126), c => !IsAsciiAlphanumeric(c));
  }

  /** The special pool as four runs of punctuation. */
  lemma SpecialRuns()
    ensures SpecialPool() == CharRange(32, 47) + (CharRange(58, 64) + (CharRange(91, 96) + CharRange(123, 126)))
  {
    SpecialIsNonAlphanumeric();
    PunctuationRuns();
  }

  /**
   * The special pool is exactly the codes in 32..=126 that are not ASCII
   * alphanumeric, in ascending order: 33 characters, space among them.
   */
  lemma SpecialExact()
    ensures forall c :: c in SpecialPool() <==> 32 <= c as int <= 126 && !IsAsciiAlphanumeric(c)
    ensures Increasing(SpecialPool())
    ensures |SpecialPool()| == 33
    ensures ' ' in SpecialPool()
  {
    var p := (c: char) => !IsAsciiAlphanumeric(c);
    var s := ToChars(ByteRange(32, 126));
    ControlFilterIsNoOp();
    CharsOfRange(32, 126);
    CharRangeIncreasing(32, 126);
    FilterIncreasing(s, p);
    forall c
      ensures c in SpecialPool() <==> 32 <= c as int <= 126 && !IsAsciiAlphanumeric(c)
    {
      FilterMembership(s, p, c);
      if 32 <= c as int <= 126 {
        assert s[c as int - 32] == c;
      }
    }
    SpecialRuns();
  }

  /** Every pool is non-empty: this is what makes the generator's unwraps safe. */
  lemma PoolsNonEmpty()
    ensures |New().lowercaseAlphabet| > 0 && |New().uppercaseAlphabet| > 0
    ensures |New().digits| > 0 && |New().special| > 0
  {
    SpecialExact();
  }

  /** Every character of the special pool is a printable non-alphanumeric. */
  lemma SpecialElements()
    ensures forall j :: 0 <= j < |SpecialPool()| ==>
              32 <= SpecialPool()[j] as int <= 126 && !IsAsciiAlphanumeric(SpecialPool()[j])
  {
    SpecialIsNonAlphanumeric();
    var sp := SpecialPool();
    forall j | 0 <= j < |sp|
      ensures 32 <= sp[j] as int <= 126 && !IsAsciiAlphanumeric(sp[j])
    {
      FilterMembership(CharRange(32, 126), c => !IsAsciiAlphanumeric(c), sp[j]);
    }
  }

  /**
   * The pools `Charset::new()` builds, stated as the reference runs of codes.
   * The lemmas below reason from this predicate rather than from the iterator
   * chains, which keeps each proof small.
   */
  ghost predicate Standard(cs: Charset)
  {
    && cs.uppercaseAlphabet == CharRange('A' as nat, 'Z' as nat)
    && cs.lowercaseAlphabet == CharRange('a' as nat, 'z' as nat)
    && cs.digits == ByteRange(48, 57)
    && cs.special == CharRange(32, 47) + (CharRange(58, 64) + (CharRange(91, 96) + CharRange(123, 126)))
  }

  lemma NewIsStandard()
    ensures Standard(New())
  {
  }

  /** What each pool holds: letters in their case's range, digits, and printable non-alphanumerics. */
  lemma StandardElements(cs: Charset)
    requires Standard(cs)
    ensures forall i :: 0 <= i < |cs.lowercaseAlphabet| ==> 'a' <= cs.lowercaseAlphabet[i] <= 'z'
    ensures forall i :: 0 <= i < |cs.uppercaseAlphabet| ==> 'A' <= cs.uppercaseAlphabet[i] <= 'Z'
    ensures forall i :: 0 <= i < |ToChars(cs.digits)| ==> '0' <= ToChars(cs.digits)[i] <= '9'
    ensures forall j :: 0 <= j < |cs.special| ==> 32 <= cs.special[j] as int <= 126 && !IsAsciiAlphanumeric(cs.special[j])
  {
    SpecialRuns();
    SpecialElements();
  }

  /** Every pool character is printable ASCII (0x20..=0x7E). */
  lemma PoolsPrintable()
    ensures Printable(New().lowercaseAlphabet) && Printable(New().uppercaseAlphabet)
    ensures Printable(ToChars(New().digits)) && Printable(New().special)
  {
    StandardElements(New());
  }

  /** Two sequences are disjoint when a predicate holds throughout one and nowhere in the other. */
  lemma DisjointBy(a: seq<char>, b: seq<char>, p: char -> bool)
    requires forall i :: 0 <= i < |a| ==> p(a[i])
    requires forall j :: 0 <= j < |b| ==> !p(b[j])
    ensures Disjoint(a, b)
  {
  }

  /** The four pools of a standard charset are pairwise disjoint (digits compared as characters). */
  lemma StandardDisjoint(cs: Charset)
    requires Standard(cs)
    ensures Disjoint(cs.lowercaseAlphabet, cs.uppercaseAlphabet)
    ensures Disjoint(cs.lowercaseAlphabet, ToChars(cs.digits))
    ensures Disjoint(cs.lowercaseAlphabet, cs.special)
    ensures Disjoint(cs.uppercaseAlphabet, ToChars(cs.digits))
    ensures Disjoint(cs.uppercaseAlphabet, cs.special)
    ensures Disjoint(ToChars(cs.digits), cs.special)
  {
    StandardElements(cs);
    DisjointBy(cs.lowercaseAlphabet, cs.uppercaseAlphabet, c => 'a' <= c);
    DisjointBy(cs.lowercaseAlphabet, ToChars(cs.digits), c => 'a' <= c);
    DisjointBy(cs.lowercaseAlphabet, cs.special, IsAsciiAlphanumeric);
    DisjointBy(cs.uppercaseAlphabet, ToChars(cs.digits), c => 'A' <= c);
    DisjointBy(cs.uppercaseAlphabet, cs.special, IsAsciiAlphanumeric);
    DisjointBy(ToChars(cs.digits), cs.special, IsAsciiAlphanumeric);
  }

  /** The four pools of `Charset::new()` are pairwise disjoint (digits compared as the characters they stand for). */
  lemma PoolsDisjoint()
    ensures Disjoint(New().lowercaseAlphabet, New().uppercaseAlphabet)
    ensures Disjoint(New().lowercaseAlphabet, ToChars(New().digits))
    ensures Disjoint(New().lowercaseAlphabet, New().special)
    ensures Disjoint(New().uppercaseAlphabet, ToChars(New().digits))
    ensures Disjoint(New().uppercaseAlphabet, New().special)
    ensures Disjoint(ToChars(New().digits), New().special)
  {
    StandardDisjoint(New());
  }
}
