/**
 * Password generation (src/password.rs): for each of `options.length`
 * positions, draw a class among the selected ones, then a character from
 * that class's pool, and append it.
 */
module Password {
  import opened Wrappers
  import opened Charsets
  import opened Random

  /** Rust's u32. */
  newtype u32 = x: int | 0 <= x < 0x1_0000_0000

  /** `PasswordOptions` as declared: the selected classes, the length, the amount and the prefix flag. */
  datatype PasswordOptions = PasswordOptions(
    charTypes: set<CharTypes>,
    length: u32,
    amount: u32,
    hasPrefix: bool)

  /** `PasswordOptions::new()`: no class selected, nothing to generate, no prefix. */
  function NewOptions(): (o: PasswordOptions)
    ensures o.charTypes == {} && o.length == 0 && o.amount == 0 && !o.hasPrefix
  {
    PasswordOptions({}, 0, 0, false)
  }

  /** `char::from_u32`: no character for a surrogate code or a code past U+10FFFF. */
  function FromU32(n: u32): (r: Option<char>)
    ensures r.Some? <==> n < 0xD800 || 0xE000 <= n <= 0x10FFFF
    ensures r.Some? ==> r.value as int == n as int
  {
    if n < 0xD800 || (0xE000 <= n && n <= 0x10FFFF) then Some(n as int as char) else None
  }

  /** A byte always converts, to the character with the same code. */
  lemma ByteConverts(b: byte)
    ensures FromU32(b as int as u32) == Some(ByteToChar(b))
  {
  }

  /**
   * The characters class `t` contributes to a password, as `create_password`
   * pushes them: the digit bytes pass through `char::from_u32`, which turns
   * each into the character with the same code.
   */
  function Pool(cs: Charset, t: CharTypes): (p: seq<char>)
    ensures t == Digits ==> p == ToChars(cs.digits)
    ensures t == LowercaseLetters ==> p == cs.lowercaseAlphabet
    ensures t == UppercaseLetters ==> p == cs.uppercaseAlphabet
    ensures t == Special ==> p == cs.special
  {
    match t
    case LowercaseLetters => cs.lowercaseAlphabet
    case UppercaseLetters => cs.uppercaseAlphabet
    case Digits => seq(|cs.digits|, i requires 0 <= i < |cs.digits| => FromU32(cs.digits[i] as int as u32).Unwrap())
    case Special => cs.special
  }

  /** What `create_password` needs of the charset: every selected class can be drawn from. */
  ghost predicate CanDraw(cs: Charset, types: set<CharTypes>)
  {
    forall t :: t in types ==> |Pool(cs, t)| > 0
  }

  /** `Charset::new()` can serve every selection, so the unwraps in `create_password` never fail. */
  lemma NewCharsetCanDraw(types: set<CharTypes>)
    ensures CanDraw(New(), types)
  {
    PoolsNonEmpty();
  }

  // ---------------------------------------------------------------------------
  // Specification of one generation call

  /**
   * A trace of one call: the class drawn at each position and the index drawn
   * within that class's pool. There is one position per requested character
   * unless no class is selected, in which case every iteration draws nothing.
   */
  ghost predicate IsTrace(options: PasswordOptions, cs: Charset, classes: seq<CharTypes>, picks: seq<nat>)
  {
    && |classes| == |picks| == (if options.charTypes == {} then 0 else options.length as int)
    && forall i :: 0 <= i < |classes| ==> classes[i] in options.charTypes && picks[i] < |Pool(cs, classes[i])|
  }

  /** The password a trace spells. */
  function Spell(cs: Charset, classes: seq<CharTypes>, picks: seq<nat>): string
    requires |classes| == |picks|
    requires forall i :: 0 <= i < |classes| ==> picks[i] < |Pool(cs, classes[i])|
  {
    seq(|classes|, i requires 0 <= i < |classes| => Pool(cs, classes[i])[picks[i]])
  }

  /** `password` is one of the outputs `create_password(options, cs, _)` can return. */
  ghost predicate IsPassword(options: PasswordOptions, cs: Charset, password: string)
  {
    exists classes, picks :: IsTrace(options, cs, classes, picks) && password == Spell(cs, classes, picks)
  }

  /** `c` belongs to the pool of one of the selected classes. */
  ghost predicate InSelectedPool(c: char, types: set<CharTypes>, cs: Charset)
  {
    exists t :: t in types && c in Pool(cs, t)
  }

  // ---------------------------------------------------------------------------
  // The generator

  /** `options.char_types.iter().cloned().collect::<Vec<_>>()`: the set's elements, once each, in some order. */
  method ClassVector(types: set<CharTypes>) returns (v: seq<CharTypes>)
    ensures |v| == |types|
    ensures forall t :: t in v <==> t in types
    ensures forall i, j :: 0 <= i < j < |v| ==> v[i] != v[j]
  {
    v := [];
    var rest := types;
    while rest != {}
      invariant rest <= types
      invariant forall t :: t in v <==> t in types && t !in rest
      invariant forall i, j :: 0 <= i < j < |v| ==> v[i] != v[j]
      invariant |v| + |rest| == |types|
      decreases rest
    {
      var t :| t in rest;
      v := v + [t];
      rest := rest - {t};
    }
  }

  /**
   * One arm of the match in `create_password`: draws a character from the
   * pool of class `t`, converting a digit byte with `char::from_u32`.
   */
  method PushChar(charset: Charset, t: CharTypes, rng: Rng) returns (c: char, ghost k: nat)
    requires |Pool(charset, t)| > 0
    modifies rng
    ensures k < |Pool(charset, t)| && c == Pool(charset, t)[k]
    ensures rng.history == old(rng.history) + [k]
  {
    match t {
      case LowercaseLetters =>
        var letter, j := Choose(charset.lowercaseAlphabet, rng);
        c, k := letter.Unwrap(), j;
      case UppercaseLetters =>
        var letter, j := Choose(charset.uppercaseAlphabet, rng);
        c, k := letter.Unwrap(), j;
      case Digits =>
        var digit, j := Choose(charset.digits, rng);
        ByteConverts(charset.digits[j]);
        c, k := FromU32(digit.Unwrap() as int as u32).Unwrap(), j;
      case Special =>
        var symbol, j := Choose(charset.special, rng);
        c, k := symbol.Unwrap(), j;
    }
  }

  /**
   * `create_password`. The ghost outputs are the drawn classes and pool
   * indices, and the draws the call made; each non-empty iteration consumes
   * exactly two draws.
   */
  method CreatePassword(options: PasswordOptions, charset: Charset, rng: Rng)
    returns (password: string, ghost classes: seq<CharTypes>, ghost picks: seq<nat>, ghost draws: seq<nat>)
    requires options.length == 0 || CanDraw(charset, options.charTypes)
    modifies rng
    ensures IsTrace(options, charset, classes, picks) && password == Spell(charset, classes, picks)
    ensures IsPassword(options, charset, password)
    ensures rng.history == old(rng.history) + draws && DrawsOf(draws, picks, |options.charTypes|)
    ensures |rng.history| == |old(rng.history)| + 2 * |classes|
    ensures rng.history[..|old(rng.history)|] == old(rng.history)
    ensures forall i :: 0 <= i < |picks| ==> rng.history[|old(rng.history)| + 2 * i] < |options.charTypes|
    ensures forall i :: 0 <= i < |picks| ==> rng.history[|old(rng.history)| + 2 * i + 1] == picks[i]
  {
    password, classes, picks, draws := "", [], [], [];
    for n := 0 to options.length as int
      invariant |classes| == |picks| == (if options.charTypes == {} then 0 else n)
      invariant forall i :: 0 <= i < |classes| ==> classes[i] in options.charTypes && picks[i] < |Pool(charset, classes[i])|
      invariant password == Spell(charset, classes, picks)
      invariant rng.history == old(rng.history) + draws
      invariant DrawsOf(draws, picks, |options.charTypes|)
    {
      var charType := ClassVector(options.charTypes);
      var choice: Option<CharTypes>, drawn := Choose(charType, rng);
      if choice.Some? {
        assert choice.value == charType[drawn] && choice.value in options.charTypes;
        var c, k := PushChar(charset, choice.value, rng);
        DrawsStep(draws, picks, |options.charTypes|, drawn, k);
        SpellStep(charset, classes, picks, choice.value, k);
        password, classes, picks := password + [c], classes + [choice.value], picks + [k];
        draws := draws + [drawn, k];
      }
    }
    DrawsSpelled(old(rng.history), draws, picks, |options.charTypes|);
  }

  /** Spelling one more class and pick appends that pick's character. */
  lemma SpellStep(cs: Charset, classes: seq<CharTypes>, picks: seq<nat>, t: CharTypes, k: nat)
    requires |classes| == |picks|
    requires forall i :: 0 <= i < |classes| ==> picks[i] < |Pool(cs, classes[i])|
    requires k < |Pool(cs, t)|
    ensures Spell(cs, classes + [t], picks + [k]) == Spell(cs, classes, picks) + [Pool(cs, t)[k]]
  {
  }

  /**
   * `draws` is the trace of the draws behind `picks`: per character, first the
   * index into the class vector (of length `m`), then the index into the pool.
   */
  ghost predicate DrawsOf(draws: seq<nat>, picks: seq<nat>, m: nat)
  {
    && |draws| == 2 * |picks|
    && (forall i :: 0 <= i < |picks| ==> draws[2 * i] < m)
    && (forall i :: 0 <= i < |picks| ==> draws[2 * i + 1] == picks[i])
  }

  lemma DrawsStep(draws: seq<nat>, picks: seq<nat>, m: nat, a: nat, b: nat)
    requires DrawsOf(draws, picks, m) && a < m
    ensures DrawsOf(draws + [a, b], picks + [b], m)
  {
    var d, p := draws + [a, b], picks + [b];
    forall i | 0 <= i < |p|
      ensures d[2 * i] < m && d[2 * i + 1] == p[i]
    {
      if i < |picks| {
        assert d[2 * i] == draws[2 * i] && d[2 * i + 1] == draws[2 * i + 1];
      }
    }
  }

  lemma DrawsSpelled(before: seq<nat>, draws: seq<nat>, picks: seq<nat>, m: nat)
    requires DrawsOf(draws, picks, m)
    ensures |before + draws| == |before| + 2 * |picks|
    ensures (before + draws)[..|before|] == before
    ensures forall i :: 0 <= i < |picks| ==> (before + draws)[|before| + 2 * i] < m
    ensures forall i :: 0 <= i < |picks| ==> (before + draws)[|before| + 2 * i + 1] == picks[i]
  {
    forall i | 0 <= i < |picks|
      ensures (before + draws)[|before| + 2 * i] < m && (before + draws)[|before| + 2 * i + 1] == picks[i]
    {
      assert (before + draws)[|before| + 2 * i] == draws[2 * i];
      assert (before + draws)[|before| + 2 * i + 1] == draws[2 * i + 1];
    }
  }

  /** One call's record: its password is spelled by a trace whose draws are `draws`. */
  ghost predicate IsCall(options: PasswordOptions, cs: Charset, password: string,
                         classes: seq<CharTypes>, picks: seq<nat>, draws: seq<nat>)
  {
    && IsTrace(options, cs, classes, picks)
    && password == Spell(cs, classes, picks)
    && DrawsOf(draws, picks, |options.charTypes|)
  }

  /** How many draws one call makes: two per character, none when no class is selected. */
  function DrawsPerCall(options: PasswordOptions): (n: nat)
    ensures n == 0 <==> options.charTypes == {} || options.length == 0
  {
    if options.charTypes == {} then 0 else 2 * options.length as int
  }

  /** The draws of consecutive calls, one segment per call, in call order. */
  ghost function Flatten(segments: seq<seq<nat>>): seq<nat>
  {
    if segments == [] then [] else Flatten(segments[..|segments| - 1]) + segments[|segments| - 1]
  }

  /** A history holding the draws of `segments` after `h`, extended by one more call's draws `d`. */
  lemma FlattenAppend(h: seq<nat>, segments: seq<seq<nat>>, d: seq<nat>)
    ensures (h + Flatten(segments)) + d == h + Flatten(segments + [d])
  {
    assert (segments + [d])[..|segments|] == segments;
    assert Flatten(segments + [d]) == Flatten(segments) + d;
  }

  /** Segments of one width `w` flatten to `|segments| * w` draws. */
  lemma {:induction false} FlattenLength(segments: seq<seq<nat>>, w: nat)
    requires forall i :: 0 <= i < |segments| ==> |segments[i]| == w
    ensures |Flatten(segments)| == |segments| * w
  {
    if segments != [] {
      var n := |segments| - 1;
      FlattenLength(segments[..n], w);
      assert |segments| * w == n * w + w;
    }
  }

  // ---------------------------------------------------------------------------
  // Properties of every generated password

  /** With a class selected the password has exactly the requested length; it is never longer. */
  lemma PasswordLength(options: PasswordOptions, cs: Charset, password: string)
    requires IsPassword(options, cs, password)
    ensures options.charTypes != {} ==> |password| == options.length as int
    ensures |password| <= options.length as int
  {
    var classes, picks :| IsTrace(options, cs, classes, picks) && password == Spell(cs, classes, picks);
  }

  /** Every character comes from the pool of a selected class. */
  lemma PasswordFromSelectedPools(options: PasswordOptions, cs: Charset, password: string)
    requires IsPassword(options, cs, password)
    ensures forall i :: 0 <= i < |password| ==> InSelectedPool(password[i], options.charTypes, cs)
  {
    var classes, picks :| IsTrace(options, cs, classes, picks) && password == Spell(cs, classes, picks);
    forall i | 0 <= i < |password|
      ensures InSelectedPool(password[i], options.charTypes, cs)
    {
      assert password[i] in Pool(cs, classes[i]);
    }
  }

  /** Pools of different classes of a standard charset share no character. */
  lemma PoolsApart(cs: Charset, t: CharTypes, u: CharTypes, c: char)
    requires Standard(cs) && t != u && c in Pool(cs, t)
    ensures c !in Pool(cs, u)
  {
    StandardDisjoint(cs);
    var i :| 0 <= i < |Pool(cs, t)| && Pool(cs, t)[i] == c;
    forall j | 0 <= j < |Pool(cs, u)|
      ensures Pool(cs, u)[j] != c
    {
    }
  }

  /** With `Charset::new()`, no character of an unselected class's pool appears. */
  lemma NoUnselectedCharacters(options: PasswordOptions, password: string)
    requires IsPassword(options, New(), password)
    ensures forall i, u :: 0 <= i < |password| && u !in options.charTypes ==> password[i] !in Pool(New(), u)
  {
    PasswordFromSelectedPools(options, New(), password);
    NewIsStandard();
    forall i, u | 0 <= i < |password| && u !in options.charTypes
      ensures password[i] !in Pool(New(), u)
    {
      var t :| t in options.charTypes && password[i] in Pool(New(), t);
      PoolsApart(New(), t, u, password[i]);
    }
  }

  /** A zero length gives the empty password. */
  lemma ZeroLengthIsEmpty(options: PasswordOptions, cs: Charset, password: string)
    requires IsPassword(options, cs, password) && options.length == 0
    ensures password == ""
  {
    PasswordLength(options, cs, password);
  }

  /** No selected class gives the empty password, whatever the length: every iteration takes the `None` arm. */
  lemma NoClassesIsEmpty(options: PasswordOptions, cs: Charset, password: string)
    requires IsPassword(options, cs, password) && options.charTypes == {}
    ensures password == ""
  {
    PasswordLength(options, cs, password);
  }

  /** Default options produce the empty password. */
  lemma DefaultOptionsGiveEmpty(cs: Charset, password: string)
    requires IsPassword(NewOptions(), cs, password)
    ensures password == ""
  {
    NoClassesIsEmpty(NewOptions(), cs, password);
  }

  /** Selecting only digits gives `length` characters, each in '0'..='9'. */
  lemma DigitsOnlyPassword(options: PasswordOptions, password: string)
    requires IsPassword(options, New(), password) && options.charTypes == {Digits}
    ensures |password| == options.length as int
    ensures forall i :: 0 <= i < |password| ==> '0' <= password[i] <= '9'
  {
    PasswordLength(options, New(), password);
    PasswordFromSelectedPools(options, New(), password);
    StandardElements(New());
    forall i | 0 <= i < |password|
      ensures '0' <= password[i] <= '9'
    {
      assert InSelectedPool(password[i], options.charTypes, New());
      var j :| 0 <= j < |ToChars(New().digits)| && ToChars(New().digits)[j] == password[i];
    }
  }
}
