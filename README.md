# passwdgen-rs, modelled in Dafny

A model of the core of passwdgen-rs, a command-line password generator, with
proofs of what it guarantees.

- **Character pools** (`Charset::new`): four pools built by filtering fixed
  ASCII ranges: lowercase letters, uppercase letters, digit bytes, and the
  printable characters 0x20..=0x7E that are not alphanumeric. Module
  `Charsets` (charsets.dfy) builds them the way the Rust iterator chains do:
  a byte range, mapped to characters, then filtered. It proves each pool's
  exact contents, order and size (26, 26, 10, 33). It also proves that the
  pools are pairwise disjoint, non-empty and printable.
- **Password generation** (`create_password`). Each of the `length`
  iterations turns the selected class set into a vector, draws a class from
  it, draws a character from that class's pool and pushes it. Module
  `Password` (password.dfy) models src/password.rs: the loop is a method
  that returns the password plus, as ghost outputs, the drawn classes
  and pool indices. Its postcondition ties the password to that trace.
  Lemmas then prove, for every possible trace: the length, that every
  character comes from a selected class's pool, and, with `Charset::new()`,
  that no character of an unselected pool appears. They also prove the empty-set, zero-length and
  digits-only cases.
- **The random source**. Module `Random` (random.dfy) is an oracle. Each
  draw yields some index below the bound it is given, and the oracle keeps
  a ghost history of its draws. `Choose` mirrors `SliceRandom::choose`: it
  returns `None` on an empty slice without drawing.
- **`main` logic** (module `App`, app.dfy, together with string helpers in
  module `Text`, text.dfy):
  - `get_char_types`, as a pure function of the typed line: split on
    commas, trim, deduplicate, map the four tokens, drop the rest.
  - The answer to the prefix question.
  - The loop that builds the list of passwords, with optional `"i: "`
    prefixes.
  - `main` from the parsed inputs onward (`Run`).

Module `Wrappers` (wrappers.dfy) holds `Option` and `Result`. `.unwrap()` is
`Option.Unwrap`, whose precondition is the proof obligation that it never
panics.

The model follows the code in two places worth stating:

- With an empty class set, `create_password` returns `""` for any length:
  every iteration takes the `None => ()` arm at src/password.rs:48, and
  there is no error. The comment at src/main.rs:117 calls that result
  unwanted, which is why `get_char_types` returns `None` for an empty set;
  the generator itself does not fail.
- The parser has no `all` token (src/main.rs:107-113), although src/cli.rs:16
  gives `all` as the default for `--types`. `"all"` is dropped like any
  other unknown word.

## Model

| member | source | states |
|---|---|---|
| `Charsets.ByteRange` | src/charset.rs:28 | the inclusive byte range `lo..=hi`, ascending; `CharsOfRange` shows that mapped to characters it is the run of codes `lo..=hi`, and `DigitsExact` gives the digit range element by element |
| `Charsets.ToChars` | src/charset.rs:29 | the `map` of each byte to a `char`: each byte becomes the character with the same code; characterised by `CharsOfRange` |
| `Charsets.CharsOfRange` | src/charset.rs:28-29 | a byte range mapped to characters is the run of characters with those codes |
| `Charsets.Filter` | src/charset.rs:30 | `.filter(p)`: the elements that satisfy `p`, in their order; `FilterMembership`, `FilterConcat` and `FilterIncreasing` characterise it |
| `Charsets.FilterMembership` | src/charset.rs:30 | an element is in the filtered sequence iff it is in the input and satisfies the predicate |
| `Charsets.FilterConcat` | src/charset.rs:30 | filtering a concatenation filters each part |
| `Charsets.IsAlphabetic` | src/charset.rs:30 | `char::is_alphabetic` on ASCII: the letters; `UppercaseExact` and `LowercaseExact` show it keeps every letter of both ranges |
| `Charsets.IsAsciiDigit` | src/charset.rs:43 | `u8::is_ascii_digit`: the codes of '0'..='9'; `DigitsExact` shows it keeps the whole range |
| `Charsets.IsAsciiAlphanumeric` | src/charset.rs:49 | `char::is_ascii_alphanumeric`: letters and digits; `SpecialExact` shows the special pool is exactly the printable codes it rejects |
| `Charsets.IsAsciiControl` | src/charset.rs:50 | `char::is_ascii_control`: codes below 0x20 and 0x7F; `ControlFilterIsNoOp` shows it rejects nothing the special chain reaches |
| `Charsets.UppercasePool` | src/charset.rs:28-31 | the `uppercase_alphabet` chain as written; `UppercaseExact` gives its contents |
| `Charsets.LowercasePool` | src/charset.rs:36-39 | the `lowercase_alphabet` chain as written; `LowercaseExact` gives its contents |
| `Charsets.DigitBytes` | src/charset.rs:41-44 | the `digits` chain as written; `DigitsExact` gives its contents |
| `Charsets.SpecialPool` | src/charset.rs:46-51 | the `special` chain as written; `SpecialRuns` and `SpecialExact` give its contents |
| `Charsets.New` | src/charset.rs:27-54 | the four pools are 'a'..='z', 'A'..='Z', the bytes 48..=57, and the four punctuation runs 32..=47, 58..=64, 91..=96, 123..=126 |
| `Charsets.UppercaseExact` | src/charset.rs:28-31 | the uppercase chain yields exactly 'A'..='Z' in ascending order, 26 characters; the `is_alphabetic` filter removes nothing |
| `Charsets.LowercaseExact` | src/charset.rs:36-39 | the lowercase chain yields exactly 'a'..='z' in ascending order, 26 characters; the `is_alphabetic` filter removes nothing |
| `Charsets.DigitsExact` | src/charset.rs:41-44 | the digit chain yields exactly the bytes 48..=57 in ascending order, 10 of them, the i-th being '0' + i |
| `Charsets.ControlFilterIsNoOp` | src/charset.rs:46-51 | after the alphanumerics are dropped from 32..=126, the `!is_ascii_control` filter removes nothing |
| `Charsets.SpecialRuns` | src/charset.rs:46-51 | the special chain yields the four punctuation runs 32..=47, 58..=64, 91..=96, 123..=126, in that order |
| `Charsets.SpecialExact` | src/charset.rs:46-51 | a character is in the special chain's output iff its code is in 32..=126 and it is not ASCII alphanumeric; the pool is ascending, has 33 characters and contains space |
| `Charsets.FilterIncreasing` | src/charset.rs:49-50 | filtering an ascending sequence keeps it ascending |
| `Charsets.PoolsNonEmpty` | src/charset.rs:27-54 | all four pools are non-empty |
| `Charsets.PoolsPrintable` | src/charset.rs:28-51 | every character of every pool (digits read as characters) has a code in 0x20..=0x7E |
| `Charsets.PoolsDisjoint` | src/charset.rs:28-53 | the four pools are pairwise disjoint |
| `Wrappers.Option.Unwrap` | src/password.rs:41-47 | `.unwrap()`: its precondition `Some?` is the obligation that it never panics, discharged at every call by `NewCharsetCanDraw` and `ByteConverts` |
| `Random.Rng.GenIndex` | src/password.rs:40 | a draw below a positive bound `n` yields an index below `n` and appends it to the history |
| `Random.Choose` | src/password.rs:40-47 | an empty slice gives `None` and draws nothing; otherwise one draw `k < len` gives `Some(s[k])` |
| `Password.ByteConverts` | src/password.rs:44-45 | `char::from_u32` of any byte succeeds and yields the character with that code |
| `Password.NewOptions` | src/password.rs:18 | `PasswordOptions::new()` selects no class, has length and amount 0 and no prefix |
| `Password.FromU32` | src/password.rs:45 | `char::from_u32` succeeds exactly on codes below 0xD800 or in 0xE000..=0x10FFFF, and then yields the character with that code |
| `Password.Pool` | src/password.rs:41-47 | each class draws from its own field of the charset; the digit class yields the digit bytes read as characters |
| `Password.PushChar` | src/password.rs:41-47 | one match arm: a single draw `k` yields the `k`-th character of the class's pool |
| `Password.NewCharsetCanDraw` | src/password.rs:41-47 | with `Charset::new()` every class's pool is non-empty, so no `unwrap` in `create_password` can fail |
| `Password.ClassVector` | src/password.rs:39 | the vector built from the class set holds each selected class exactly once and nothing else |
| `Password.CreatePassword` | src/password.rs:35-53 | the password is spelled by a trace of `length` draws (none if no class is selected), each a selected class and an index inside that class's pool; each non-empty iteration consumes two draws, first the index into the class vector, then the pool index of the trace, and earlier draws are untouched; the call's draws are returned as a ghost output that follows the old history |
| `Password.PasswordLength` | src/password.rs:38-49 | with a class selected the password has exactly `length` characters; it is never longer than `length` |
| `Password.PasswordFromSelectedPools` | src/password.rs:39-47 | every character lies in the pool of some selected class |
| `Password.NoUnselectedCharacters` | src/password.rs:41-47 | with `Charset::new()`, no character of an unselected class's pool appears |
| `Password.ZeroLengthIsEmpty` | src/password.rs:36-38 | length 0 gives the empty password |
| `Password.NoClassesIsEmpty` | src/password.rs:38-49 | an empty class set gives the empty password for any length |
| `Password.DefaultOptionsGiveEmpty` | src/password.rs:18 | the options from `PasswordOptions::new()` (no classes, length 0) give the empty password |
| `Password.DigitsOnlyPassword` | src/password.rs:43-46 | with only digits selected the password has `length` characters, each in '0'..='9' |
| `Text.Split` | src/main.rs:103 | `split(',')` yields at least one piece and no piece holds a comma |
| `Text.JoinOfSplit` | src/main.rs:103 | joining the pieces of `split(',')` with commas gives the input back |
| `Text.SplitOfJoin` | src/main.rs:103 | splitting comma-free pieces joined by commas gives those pieces back |
| `Text.Trim` | src/main.rs:103 | the trimmed string neither starts nor ends with whitespace |
| `Text.IsWhitespace` | src/main.rs:103 | the ASCII characters `char::is_whitespace` accepts: tab through carriage return, and space; `TrimCut` and `TrimPadded` use it to say what `trim` removes |
| `Text.TrimStart` | src/main.rs:103 | a suffix of the input; everything dropped is whitespace and what is kept does not start with whitespace |
| `Text.TrimEnd` | src/main.rs:103 | a prefix of the input; everything dropped is whitespace and what is kept does not end with whitespace |
| `Text.TrimCut` | src/main.rs:103 | `trim` keeps the slice between the leading and trailing whitespace runs; the slice neither starts nor ends with whitespace |
| `Text.TrimPadded` | src/main.rs:103 | trimming a whitespace-padded token gives the token |
| `Text.DecimalString` | src/main.rs:66 | `to_string` of an index is a non-empty run of decimal digits with no leading zero |
| `Text.DecimalRoundTrip` | src/main.rs:66 | the decimal form reads back as the number |
| `App.TokenType` | src/main.rs:107-113 | a choice maps to a class only when it is that class's token, and to nothing when it is no class's token |
| `App.TokenRoundTrip` | src/main.rs:107-113 | each class's token maps back to that class |
| `App.Choices` | src/main.rs:103 | the trimmed pieces of `split(',')`, in order; `ChoicesOfOne`, `ChoicesOfTwo` and `ChoicesAppend` give the choices of one piece, of two pieces and of one more piece |
| `App.ChoicesOfOne` | src/main.rs:103 | a comma-free input is one choice, its trimmed self |
| `App.ChoicesOfTwo` | src/main.rs:103 | two comma-free pieces around a comma are two choices, each trimmed |
| `App.ChoicesAppend` | src/main.rs:103 | one more piece after a comma adds one more trimmed choice at the end and leaves the others as they were |
| `App.GetCharTypes` | src/main.rs:98-122 | `None` iff no trimmed choice is a class token; otherwise exactly the classes whose tokens are among the trimmed choices |
| `App.UnknownChoiceIgnored` | src/main.rs:107-113 | appending an unrecognised choice does not change the result |
| `App.DuplicateWithWhitespace` | src/main.rs:103-114 | `"lowercase, lowercase"` gives `{LowercaseLetters}` |
| `App.TwoClasses` | src/main.rs:103-114 | `"lowercase,digits"` gives `{LowercaseLetters, Digits}` |
| `App.AllSelectsNothing` | src/main.rs:107-119 | `"all"` and `"bogus"` each give `None` |
| `App.ParsePrefixAnswer` | src/main.rs:51-56 | `"y"` and `""` mean yes, `"n"` means no, any other answer is an error |
| `App.Entry` | src/main.rs:65-69 | a prefixed entry reads back as its index and its password, even when the password holds colons, and its index has no leading zero (the digit run is `0` alone or starts with a non-zero digit), as `to_string` writes it; without a prefix the entry is the password |
| `App.GeneratePasswords` | src/main.rs:61-70 | the list has exactly `amount` entries; entry i (1-based) is prefixed with `"i: "` when asked and holds the password of the i-th `create_password` call, spelled by that call's own trace; the history is the old one followed by the calls' draws in call order, `amount` times the per-call count (twice the length, or none without a class) |
| `App.Run` | src/main.rs:31-70 | an unparseable class list or prefix answer ends in the matching error; when both parse the run succeeds, with `amount` entries, each built from a password for the parsed options on `Charset::new()`; an error exit draws nothing, a successful run draws `amount` times twice the length, and its list is one the loop builds with one `create_password` call per entry, entry i from the i-th call, whose draws are what the history gained, in call order |

## Left out

- Random source internals: ChaCha20 seeding and `from_entropy` (src/main.rs:33) are not modelled. Nor is any claim about uniformity or the distinctness of outputs. These are statements about probability. A draw is just some index within bounds.
- `Random.Choose`: each call is recorded as one draw, whatever number of machine words the `rand` crate consumes to produce it.
- HashSet iteration order (src/password.rs:39): `ClassVector` yields the set's elements in an arbitrary order. The order may differ between iterations.
- Terminal I/O: `read_input`, `get_input` (src/util.rs:19-53), the prints, and the prompt inside `get_char_types`. The typed lines are parameters.
- `convert_to_number` (src/util.rs:64-66) is a wrapper over `str::parse::<u32>`. `Run` takes the length and amount already parsed. The "Invalid length given" and "Invalid amount given" exits are not modelled.
- `user_error!` (src/main.rs:23-28) prints and exits. It is modelled as a `Failure` result.
- The `Output` enum (src/util.rs:3-12), src/cli.rs (clap argument parsing) and src/file_export.rs (file writing) are not part of this model.
- The struct literal at src/main.rs:58 names only `char_types` and `length`. `Run` uses `PasswordOptions` as declared at src/password.rs:10-15, filling `amount` and `has_prefix` with the parsed values.
- The commented-out generator at src/main.rs:73-88 is not modelled.
- Unicode: `char::is_alphabetic` and `str::trim` are modelled on ASCII only. Trim strips tab through carriage return and space. These are the ASCII characters `char::is_whitespace` accepts.
- `App.ParsePrefixAnswer`: the prompt advertises `[Y/n]`, but an upper-case `Y` is rejected. The model keeps the code's behaviour.
