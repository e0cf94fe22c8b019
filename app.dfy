/**
 * The string logic of src/main.rs around the generator: the character-type
 * parser, the answer to the prefix question, and the assembly of the list of
 * passwords. Terminal input arrives as string parameters.
 */
module App {
  import opened Wrappers
  import opened Charsets
  import opened Random
  import opened Password
  import opened Text

  /** Why `main` stops with an error message. */
  datatype AppError = InvalidCharTypes | InvalidPrefixAnswer

  // ---------------------------------------------------------------------------
  // get_char_types

  /** The class a trimmed choice names; any other choice, `all` included, names none. */
  function TokenType(choice: string): (r: Option<CharTypes>)
    ensures r.Some? ==> choice == TokenName(r.value)
    ensures r.None? ==> forall t :: choice != TokenName(t)
  {
    match choice
    case "lowercase" => Some(LowercaseLetters)
    case "uppercase" => Some(UppercaseLetters)
    case "digits" => Some(Digits)
    case "special" => Some(Special)
    case _ => None
  }

  /** The token that selects each class. */
  function TokenName(t: CharTypes): string
  {
    match t
    case LowercaseLetters => "lowercase"
    case UppercaseLetters => "uppercase"
    case Digits => "digits"
    case Special => "special"
  }

  /** Each class's token parses back to that class. */
  lemma TokenRoundTrip(t: CharTypes)
    ensures TokenType(TokenName(t)) == Some(t)
  {
    match t
    case LowercaseLetters => assert TokenType("lowercase") == Some(LowercaseLetters);
    case UppercaseLetters => assert TokenType("uppercase") == Some(UppercaseLetters);
    case Digits => assert TokenType("digits") == Some(Digits);
    case Special => assert TokenType("special") == Some(Special);
  }

  /** `input_string.split(',').map(|c| c.trim())`. */
  function Choices(input: string): seq<string>
  {
    var pieces := Split(input, ',');
    seq(|pieces|, i requires 0 <= i < |pieces| => Trim(pieces[i]))
  }

  /**
   * `get_char_types`, with the line the user typed as `input`: the set of
   * classes whose token is among the trimmed comma-separated choices, or
   * `None` when that set is empty.
   */
  function GetCharTypes(input: string): (r: Option<set<CharTypes>>)
    ensures r.None? <==> forall t :: TokenName(t) !in Choices(input)
    ensures r.Some? ==> forall t :: t in r.value <==> TokenName(t) in Choices(input)
  {
    var choices := set c | c in Choices(input);
    var charTypes := set c | c in choices && TokenType(c).Some? :: TokenType(c).value;
    assert forall t :: t in charTypes <==> TokenName(t) in choices by {
      forall t
        ensures t in charTypes <==> TokenName(t) in choices
      {
        if t in charTypes {
          var c :| c in choices && TokenType(c) == Some(t);
        }
        if TokenName(t) in choices {
          TokenRoundTrip(t);
        }
      }
    }
    if charTypes == {} then None else Some(charTypes)
  }

  /** One comma-free piece is one choice. */
  lemma ChoicesOfOne(a: string)
    requires ',' !in a
    ensures Choices(a) == [Trim(a)]
  {
    SplitWhole(a, ',');
  }

  /** Two comma-free pieces around a comma are two choices. */
  lemma ChoicesOfTwo(a: string, b: string)
    requires ',' !in a && ',' !in b
    ensures Choices(a + [','] + b) == [Trim(a), Trim(b)]
  {
    SplitTwo(a, b);
    ChoicesOfPieces(a + [','] + b, a, b);
  }

  lemma SplitTwo(a: string, b: string)
    requires ',' !in a && ',' !in b
    ensures Split(a + [','] + b, ',') == [a, b]
  {
    SplitAfterPiece(a, ',', b);
    SplitWhole(b, ',');
  }

  lemma ChoicesOfPieces(s: string, a: string, b: string)
    requires Split(s, ',') == [a, b]
    ensures Choices(s) == [Trim(a), Trim(b)]
  {
    var c := Choices(s);
    assert |c| == 2 && c[0] == Trim(a) && c[1] == Trim(b);
  }

  /** The parse selects `expected` when exactly its tokens are among the choices. */
  lemma Selects(input: string, expected: set<CharTypes>)
    requires expected != {}
    requires forall t :: t in expected <==> TokenName(t) in Choices(input)
    ensures GetCharTypes(input) == Some(expected)
  {
    var t :| t in expected;
    assert TokenName(t) in Choices(input);
    var r := GetCharTypes(input);
    assert r.Some?;
    forall u
      ensures u in r.value <==> u in expected
    {
    }
    assert r.value == expected;
  }

  /** An unrecognised last choice is dropped without affecting the rest of the parse. */
  lemma UnknownChoiceIgnored(input: string, junk: string)
    requires ',' !in junk && TokenType(Trim(junk)).None?
    ensures GetCharTypes(input + [','] + junk) == GetCharTypes(input)
  {
    var whole := input + [','] + junk;
    SplitAppend(input, ',', junk);
    ChoicesAppend(whole, input, junk);
    forall t
      ensures TokenName(t) in Choices(whole) <==> TokenName(t) in Choices(input)
    {
      InAppended(Choices(input), Trim(junk), TokenName(t));
    }
    SameTokens(whole, input);
  }

  lemma InAppended(c: seq<string>, w: string, x: string)
    requires x != w
    ensures x in c + [w] <==> x in c
  {
  }

  /** Inputs whose choices hold the same tokens parse alike. */
  lemma SameTokens(x: string, y: string)
    requires forall t :: TokenName(t) in Choices(x) <==> TokenName(t) in Choices(y)
    ensures GetCharTypes(x) == GetCharTypes(y)
  {
    var r, r' := GetCharTypes(x), GetCharTypes(y);
    if r.Some? && r'.Some? {
      assert r.value == r'.value;
    }
  }

  lemma ChoicesAppend(whole: string, input: string, junk: string)
    requires Split(whole, ',') == Split(input, ',') + [junk]
    ensures Choices(whole) == Choices(input) + [Trim(junk)]
  {
    var p, q := Split(input, ','), Split(whole, ',');
    var a, b := Choices(input), Choices(whole);
    assert |b| == |q| == |p| + 1 == |a| + 1;
    forall i | 0 <= i < |b|
      ensures b[i] == (a + [Trim(junk)])[i]
    {
      assert b[i] == Trim(q[i]);
      if i < |a| {
        assert q[i] == p[i] && a[i] == Trim(p[i]);
      }
    }
  }

  /** Two clean comma-free choices are read back as they are. */
  lemma CleanChoices(a: string, b: string)
    requires ',' !in a && ',' !in b
    requires a != [] && !IsWhitespace(a[0]) && !IsWhitespace(a[|a| - 1])
    requires b != [] && !IsWhitespace(b[0]) && !IsWhitespace(b[|b| - 1])
    ensures Choices(a + [','] + b) == [a, b]
    ensures Choices(a + [','] + (" " + b)) == [a, b]
  {
    ChoicesOfTwo(a, b);
    TrimClean(a);
    TrimClean(b);
    assert ',' !in " " + b;
    ChoicesOfTwo(a, " " + b);
    TrimIndented(b);
  }

  lemma DuplicateChoices()
    ensures Choices("lowercase, lowercase") == ["lowercase", "lowercase"]
  {
    var lc := "lowercase";
    assert "lowercase, lowercase" == lc + [','] + (" " + lc);
    CleanChoices(lc, lc);
  }

  /** Whitespace around a choice and repeats of it do not matter. */
  lemma DuplicateWithWhitespace()
    ensures GetCharTypes("lowercase, lowercase") == Some({LowercaseLetters})
  {
    DuplicateChoices();
    LowercaseTwice("lowercase, lowercase");
  }

  lemma LowercaseTwice(input: string)
    requires Choices(input) == ["lowercase", "lowercase"]
    ensures GetCharTypes(input) == Some({LowercaseLetters})
  {
    forall t
      ensures t in {LowercaseLetters} <==> TokenName(t) == "lowercase"
    {
    }
    Selects(input, {LowercaseLetters});
  }

  lemma TwoChoices()
    ensures Choices("lowercase,digits") == ["lowercase", "digits"]
  {
    var lc, dg := "lowercase", "digits";
    assert "lowercase,digits" == lc + [','] + dg;
    CleanChoices(lc, dg);
  }

  lemma LowercaseAndDigits(input: string)
    requires Choices(input) == ["lowercase", "digits"]
    ensures GetCharTypes(input) == Some({LowercaseLetters, Digits})
  {
    forall t
      ensures t in {LowercaseLetters, Digits} <==> TokenName(t) == "lowercase" || TokenName(t) == "digits"
    {
    }
    Selects(input, {LowercaseLetters, Digits});
  }

  /** Two recognised choices select exactly those two classes. */
  lemma TwoClasses()
    ensures GetCharTypes("lowercase,digits") == Some({LowercaseLetters, Digits})
  {
    TwoChoices();
    LowercaseAndDigits("lowercase,digits");
  }

  /** A lone clean word that is not a token selects nothing. */
  lemma UnknownAlone(w: string)
    requires ',' !in w && w != [] && !IsWhitespace(w[0]) && !IsWhitespace(w[|w| - 1])
    requires TokenType(w).None?
    ensures GetCharTypes(w) == None
  {
    ChoicesOfOne(w);
    TrimClean(w);
  }

  /** `all` is not a token of this parser: alone it selects nothing, like any unknown word. */
  lemma AllSelectsNothing()
    ensures GetCharTypes("all") == None
    ensures GetCharTypes("bogus") == None
  {
    UnknownAlone("all");
    UnknownAlone("bogus");
  }

  // ---------------------------------------------------------------------------
  // The prefix question

  /** The answer to "[Y/n]": `y` or an empty line mean yes, `n` means no, anything else is an error. */
  function ParsePrefixAnswer(answer: string): (r: Option<bool>)
    ensures r == Some(true) <==> answer == "y" || answer == ""
    ensures r == Some(false) <==> answer == "n"
  {
    match answer
    case "y" => Some(true)
    case "n" => Some(false)
    case "" => Some(true)
    case _ => None
  }

  // ---------------------------------------------------------------------------
  // Assembling the list

  /**
   * The list entry for the `index`-th password: `"{index}: {password}"` with
   * a prefix, which reads back as that index and password even when the
   * password holds colons, the index written without leading zeros;
   * otherwise the password itself.
   */
  function Entry(hasPrefix: bool, index: nat, password: string): (entry: string)
    ensures hasPrefix ==> ParseEntry(entry) == Some((index, password))
    ensures hasPrefix ==> |entry| > 1 && (entry[0] != '0' || entry[1] == ':')
    ensures !hasPrefix ==> entry == password
  {
    if hasPrefix then
      var d := DecimalString(index);
      var entry := d + ": " + password;
      assert entry == d + (": " + password);
      assert entry[..|d|] == d;
      IndexOfPrefix(d, ": " + password, ':');
      DecimalRoundTrip(index);
      assert entry[|d| + 2..] == password;
      entry
    else
      password
  }

  /** The position of the first `c` in `s`, or `|s|` when there is none. */
  function IndexOf(s: string, c: char): (k: nat)
    ensures k <= |s| && c !in s[..k]
    ensures k < |s| ==> s[k] == c
  {
    if s == [] then 0
    else if s[0] == c then 0
    else
      assert s[1..][..IndexOf(s[1..], c)] == s[1..IndexOf(s[1..], c) + 1];
      1 + IndexOf(s[1..], c)
  }

  /** Reads a prefixed entry back: the number before the first colon, and what follows `": "`. */
  function ParseEntry(entry: string): Option<(nat, string)>
  {
    var k := IndexOf(entry, ':');
    if 0 < k && k + 1 < |entry| && entry[k + 1] == ' ' && forall i :: 0 <= i < k ==> IsDigit(entry[i])
    then Some((DecimalValue(entry[..k]), entry[k + 2..]))
    else None
  }

  lemma {:induction false} IndexOfPrefix(a: string, b: string, c: char)
    requires c !in a && b != [] && b[0] == c
    ensures IndexOf(a + b, c) == |a|
  {
    if a != [] {
      assert (a + b)[1..] == a[1..] + b;
      IndexOfPrefix(a[1..], b, c);
    }
  }

  /** `entry` is what the list holds for the `index`-th password generated with `options`. */
  ghost predicate IsEntry(options: PasswordOptions, cs: Charset, hasPrefix: bool, index: nat, entry: string)
  {
    exists password :: IsPassword(options, cs, password) && entry == Entry(hasPrefix, index, password)
  }

  /**
   * The `for i in 1..=amount` loop of `main`: one `create_password` call per
   * entry, prefixed with its 1-based index when asked to. The ghost outputs
   * are, per entry, the password and the trace and draws of its own call;
   * the calls' draws follow one another in the history.
   */
  method GeneratePasswords(options: PasswordOptions, amount: u32, hasPrefix: bool, charset: Charset, rng: Rng)
    returns (passwords: seq<string>, ghost generated: seq<string>,
             ghost classesOf: seq<seq<CharTypes>>, ghost picksOf: seq<seq<nat>>, ghost drawsOf: seq<seq<nat>>)
    requires options.length == 0 || CanDraw(charset, options.charTypes)
    modifies rng
    ensures |passwords| == |generated| == amount as int
    ensures |classesOf| == |picksOf| == |drawsOf| == amount as int
    ensures forall i :: 0 <= i < |generated| ==> IsPassword(options, charset, generated[i])
    ensures forall i :: 0 <= i < |passwords| ==> passwords[i] == Entry(hasPrefix, i + 1, generated[i])
    ensures forall i :: 0 <= i < |generated| ==>
              IsCall(options, charset, generated[i], classesOf[i], picksOf[i], drawsOf[i])
    ensures rng.history == old(rng.history) + Flatten(drawsOf)
    ensures |rng.history| == |old(rng.history)| + amount as int * DrawsPerCall(options)
    ensures |rng.history| >= |old(rng.history)| && rng.history[..|old(rng.history)|] == old(rng.history)
  {
    passwords, generated, classesOf, picksOf, drawsOf := [], [], [], [], [];
    for i := 1 to amount as int + 1
      invariant |drawsOf| == i - 1
      invariant Listed(options, charset, hasPrefix, passwords, generated, classesOf, picksOf, drawsOf)
      invariant rng.history == old(rng.history) + Flatten(drawsOf)
    {
      var password, classes, picks, draws := CreatePassword(options, charset, rng);
      FlattenAppend(old(rng.history), drawsOf, draws);
      var entry;
      if hasPrefix {
        entry := DecimalString(i) + ": " + password;
      } else {
        entry := password;
      }
      assert entry == Entry(hasPrefix, i, password);
      ListedStep(options, charset, hasPrefix, passwords, generated, classesOf, picksOf, drawsOf,
                 password, classes, picks, draws);
      passwords := passwords + [entry];
      generated, classesOf, picksOf, drawsOf := generated + [password], classesOf + [classes], picksOf + [picks], drawsOf + [draws];
    }
    ListedMeans(options, charset, hasPrefix, passwords, generated, classesOf, picksOf, drawsOf);
    assert rng.history[..|old(rng.history)|] == old(rng.history);
  }

  /** The invariant of the loop in `GeneratePasswords`: entry by entry, the list and the calls behind it. */
  ghost predicate Listed(options: PasswordOptions, cs: Charset, hasPrefix: bool, passwords: seq<string>,
                         generated: seq<string>, classesOf: seq<seq<CharTypes>>, picksOf: seq<seq<nat>>, drawsOf: seq<seq<nat>>)
  {
    && |passwords| == |generated| == |classesOf| == |picksOf| == |drawsOf|
    && (forall k :: 0 <= k < |generated| ==> IsPassword(options, cs, generated[k]))
    && (forall k :: 0 <= k < |passwords| ==> passwords[k] == Entry(hasPrefix, k + 1, generated[k]))
    && (forall k :: 0 <= k < |generated| ==> IsCall(options, cs, generated[k], classesOf[k], picksOf[k], drawsOf[k]))
  }

  lemma ListedStep(options: PasswordOptions, cs: Charset, hasPrefix: bool, passwords: seq<string>,
                   generated: seq<string>, classesOf: seq<seq<CharTypes>>, picksOf: seq<seq<nat>>, drawsOf: seq<seq<nat>>,
                   password: string, classes: seq<CharTypes>, picks: seq<nat>, draws: seq<nat>)
    requires Listed(options, cs, hasPrefix, passwords, generated, classesOf, picksOf, drawsOf)
    requires IsTrace(options, cs, classes, picks) && password == Spell(cs, classes, picks)
    requires DrawsOf(draws, picks, |options.charTypes|)
    ensures Listed(options, cs, hasPrefix, passwords + [Entry(hasPrefix, |passwords| + 1, password)],
                   generated + [password], classesOf + [classes], picksOf + [picks], drawsOf + [draws])
  {
    var n := |passwords|;
    var ps, gs := passwords + [Entry(hasPrefix, n + 1, password)], generated + [password];
    var cls, pks, ds := classesOf + [classes], picksOf + [picks], drawsOf + [draws];
    forall k | 0 <= k < |gs|
      ensures IsPassword(options, cs, gs[k]) && ps[k] == Entry(hasPrefix, k + 1, gs[k])
      ensures IsCall(options, cs, gs[k], cls[k], pks[k], ds[k])
    {
      if k < n {
        assert gs[k] == generated[k] && ps[k] == passwords[k];
        assert cls[k] == classesOf[k] && pks[k] == picksOf[k] && ds[k] == drawsOf[k];
      } else {
        assert IsCall(options, cs, password, classes, picks, draws);
      }
    }
  }

  /** What the loop invariant says entry by entry, and how many draws the calls made in all. */
  lemma ListedMeans(options: PasswordOptions, cs: Charset, hasPrefix: bool, passwords: seq<string>,
                    generated: seq<string>, classesOf: seq<seq<CharTypes>>, picksOf: seq<seq<nat>>, drawsOf: seq<seq<nat>>)
    requires Listed(options, cs, hasPrefix, passwords, generated, classesOf, picksOf, drawsOf)
    ensures |passwords| == |generated| == |classesOf| == |picksOf| == |drawsOf|
    ensures forall i :: 0 <= i < |generated| ==> IsPassword(options, cs, generated[i])
    ensures forall i :: 0 <= i < |passwords| ==> passwords[i] == Entry(hasPrefix, i + 1, generated[i])
    ensures forall i :: 0 <= i < |generated| ==> IsCall(options, cs, generated[i], classesOf[i], picksOf[i], drawsOf[i])
    ensures |Flatten(drawsOf)| == |drawsOf| * DrawsPerCall(options)
  {
    forall k | 0 <= k < |drawsOf|
      ensures |drawsOf[k]| == DrawsPerCall(options)
    {
      assert IsCall(options, cs, generated[k], classesOf[k], picksOf[k], drawsOf[k]);
    }
    FlattenLength(drawsOf, DrawsPerCall(options));
  }

  /**
   * `passwords` is a list the loop of `main` can build between the histories
   * `before` and `after`: one call per entry, each entry from its own call,
   * and the calls' draws are what the history gained, in call order.
   */
  ghost predicate IsList(options: PasswordOptions, cs: Charset, hasPrefix: bool, passwords: seq<string>,
                         before: seq<nat>, after: seq<nat>)
  {
    exists generated, classesOf, picksOf, drawsOf ::
      && Listed(options, cs, hasPrefix, passwords, generated, classesOf, picksOf, drawsOf)
      && after == before + Flatten(drawsOf)
  }

  /**
   * `main` from the parsed length onwards: parse the class list, take the
   * amount, answer the prefix question, then build the list. Each error is
   * the message-and-exit of `user_error!`.
   */
  method Run(length: u32, typesInput: string, amount: u32, prefixAnswer: string, rng: Rng)
    returns (r: Result<seq<string>, AppError>)
    modifies rng
    ensures GetCharTypes(typesInput).None? ==> r == Failure(InvalidCharTypes)
    ensures GetCharTypes(typesInput).Some? && ParsePrefixAnswer(prefixAnswer).None? ==> r == Failure(InvalidPrefixAnswer)
    ensures GetCharTypes(typesInput).Some? && ParsePrefixAnswer(prefixAnswer).Some? ==> r.Success?
    ensures r.Failure? ==> rng.history == old(rng.history)
    ensures r.Success? ==> |rng.history| == |old(rng.history)| + amount as int * (2 * length as int)
    ensures r.Success? ==>
              && GetCharTypes(typesInput).Some? && ParsePrefixAnswer(prefixAnswer).Some?
              && |r.value| == amount as int
              && forall i :: 0 <= i < |r.value| ==>
                   IsEntry(PasswordOptions(GetCharTypes(typesInput).value, length, amount, ParsePrefixAnswer(prefixAnswer).value),
                           New(), ParsePrefixAnswer(prefixAnswer).value, i + 1, r.value[i])
    ensures r.Success? ==>
              IsList(PasswordOptions(GetCharTypes(typesInput).value, length, amount, ParsePrefixAnswer(prefixAnswer).value),
                     New(), ParsePrefixAnswer(prefixAnswer).value, r.value, old(rng.history), rng.history)
  {
    var charset := New();
    var charTypes := GetCharTypes(typesInput);
    if charTypes.None? {
      return Failure(InvalidCharTypes);
    }
    var hasPrefix := ParsePrefixAnswer(prefixAnswer);
    if hasPrefix.None? {
      return Failure(InvalidPrefixAnswer);
    }
    var options := PasswordOptions(charTypes.value, length, amount, hasPrefix.value);
    NewCharsetCanDraw(options.charTypes);
    assert options.charTypes != {} by {
      var t :| TokenName(t) in Choices(typesInput);
      assert t in options.charTypes;
    }
    ghost var before := rng.history;
    var passwords, generated, classesOf, picksOf, drawsOf := GeneratePasswords(options, amount, hasPrefix.value, charset, rng);
    assert Listed(options, charset, hasPrefix.value, passwords, generated, classesOf, picksOf, drawsOf);
    assert IsList(options, charset, hasPrefix.value, passwords, before, rng.history);
    forall i | 0 <= i < |passwords|
      ensures IsEntry(options, charset, hasPrefix.value, i + 1, passwords[i])
    {
      assert IsPassword(options, charset, generated[i]);
    }
    r := Success(passwords);
  }
}
