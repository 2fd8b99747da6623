# mudint argument tokenizer, modelled in Dafny

This project models the argument tokenizer of the `mudint` command
interpreter for text adventures. A line typed by the player, such as
`take 2*pen from 2.box`, is split on spaces into words. Each word becomes an
`Argument`, which keeps four things:

- the word as typed (`original`);
- the word with a recognised prefix stripped (`content`);
- the quantity or index the prefix gave;
- three flags: ALL, QUANTITY and INDEX.

A prefix is a number, or a word meaning "all", followed by `*` (quantity) or
`.` (index).

Two container classes own the ordered arguments of a line:

- `Interpreter`, the current revision;
- `ArgumentHandler`, the older one.

Both offer permissive and checked access by position, search, rebuilding
of the typed text (`substr`), in-place erasure, and removal of ignorable or
fill words.

Files and modules:

- `wrappers.dfy` (`Wrappers`): `Option` and the `Checked` result of `get`.
  `Checked` is either the element or `OutOfRange`, which stands for the
  `std::out_of_range` that `vector::at` throws.
- `ustr.dfy` (`Ustr`): the string utilities of `include/interpreter/ustr.hpp`:
  - `isNumber` and `toNumber`, with `strtol` written out: sign, digits,
    saturation to 64-bit `long`, then the wrap-around cast to `std::size_t`;
  - `toLower`, `isAbbrev`, `split`, `beginWith` and `get_ordinal`;
  - `find_first_of` and `find_first_not_of`, with `|s|` standing for
    `npos`.
- `config.dfy` (`Config`): the default word lists and symbols, with
  `means_all` and `must_ignore`.
- `argument.dfy` (`Args`):
  - `Token`, the value of an argument;
  - the prefix evaluation as functions;
  - the class `Argument`, whose constructor and `parse` update its fields
    step by step through `evaluate_all_prefix`, `evaluate_index` and
    `evaluate_quantity`.
- `line.dfy` (`Line`): definitions shared by both containers: order-keeping
  filters, the arguments built from a list of words, what `substr`
  produces, and the `substr` loop and positional accesses that both
  containers' methods call.
- `interpreter.dfy` (`Interp`): the class `Interpreter`.
- `argument_handler.dfy` (`Handler`): the class `ArgumentHandler`.

Each method that changes a container or an argument is proved against a
function of its old state. The source's promises are lemmas about those
functions:

- `split` yields non-empty pieces without a delimiter, whose concatenation
  is the line without its delimiters, and which rebuild a well-spaced line
  exactly.
- The prefix parser never touches `original`, and leaves a `content` that
  is a suffix of it after at most two strips.
- Filtering is exact and idempotent.
- `substr` of a tail gives the words joined by single spaces, and a range
  that stops early ends in a space.

Two behaviours of the code are easy to miss:

- A number is any non-empty string over `+-0123456789` (`"-"`, `"1-2"`),
  not only an optionally signed run of digits.
- A line is split on the single character `' '` only: tabs are not
  delimiters.

## Model

| member | source | states |
|---|---|---|
| Ustr.FindFirstOf | include/interpreter/ustr.hpp:63 | the position found is at or after the start, at most the length (npos), and holds a delimiter when it is not npos |
| Ustr.FindFirstOfSkips | include/interpreter/ustr.hpp:63 | no delimiter stands between the start and the position found |
| Ustr.FindFirstNotOf | include/interpreter/ustr.hpp:17 | the position found holds a non-member when not npos, and every character before it is a member |
| Ustr.IsNumber | include/interpreter/ustr.hpp:13-18 | true exactly for a non-empty string all of whose characters are signs or digits; the empty string is not a number |
| Ustr.Strtol | include/interpreter/ustr.hpp:23-28 | the value read (sign and leading digits) is saturated: it always lies within the range of a 64-bit long |
| Ustr.ToNumber | include/interpreter/ustr.hpp:23-28 | the result is a 64-bit unsigned value congruent to the strtol value modulo 2^64 |
| Ustr.ToNumberOfDigits | include/interpreter/ustr.hpp:23-28 | for a digit string the conversion is below INT_MAX exactly when its decimal value is, and then equals that value |
| Ustr.NegativeToNumberRejected | include/interpreter/ustr.hpp:23-28 | a negative number converts to a huge unsigned value, never below INT_MAX |
| Ustr.LeadingDigitsAll | include/interpreter/ustr.hpp:27 | strtol reads every character of a digit string |
| Ustr.Lower | include/interpreter/ustr.hpp:33-39 | same length, each character lower-cased independently (ASCII) |
| Ustr.ToLower | include/interpreter/ustr.hpp:33-39 | the character-by-character loop builds exactly the lower-cased string |
| Ustr.LowerIdempotent | include/interpreter/ustr.hpp:33-39 | lower-casing twice is lower-casing once |
| Ustr.IsAbbrev | include/interpreter/ustr.hpp:47-51 | true exactly when minLength <= size of source <= size of master and source is a case-sensitive prefix of master |
| Ustr.Split | include/interpreter/ustr.hpp:58-72 | the cursor loop returns exactly the pieces Words(s, d) |
| Ustr.SplitLoopWords | include/interpreter/ustr.hpp:63-71 | from any cursor, the rest of the loop appends exactly the pieces from that cursor to what was collected |
| Ustr.WordsFromArePieces | include/interpreter/ustr.hpp:64-70 | every piece is non-empty and holds no delimiter, so consecutive delimiters give no empty piece |
| Ustr.WordsFromConcat | include/interpreter/ustr.hpp:58-72 | the pieces, concatenated in order, are the string with its delimiters removed |
| Ustr.WordsSpec | include/interpreter/ustr.hpp:58-72 | split's pieces are non-empty, delimiter-free and concatenate to the string without delimiters |
| Ustr.WordsFromDelimiters | include/interpreter/ustr.hpp:63-70 | a string made only of delimiters has no pieces |
| Ustr.WordsFromJoin | include/interpreter/ustr.hpp:58-72 | a well-spaced string is the join, by the separator, of its pieces |
| Ustr.SplitJoinRoundTrip | include/interpreter/ustr.hpp:58-72 | joining split's words of a well-spaced string by the separator gives the string back |
| Ustr.DropFirstWord | include/interpreter/ustr.hpp:58-72 | the first word is the text before the first separator, and the other words join to the text after it |
| Ustr.BeginWith | include/interpreter/ustr.hpp:79-102 | the two-iterator walk counting n down answers exactly BeginsWith |
| Ustr.BeginsWithSensitive | include/interpreter/ustr.hpp:79-102 | with n <= 0 and case-sensitive: true exactly when the prefix is non-empty and a literal prefix of the source |
| Ustr.BeginsWithFolded | include/interpreter/ustr.hpp:79-102 | with n <= 0 and case-insensitive: true exactly when the prefix is non-empty and its lower-cased form begins the lower-cased source |
| Ustr.BeginsWithCount | include/interpreter/ustr.hpp:89-101 | with n > 0 only the first min(n, size of prefix) characters are compared |
| Ustr.GetOrdinal | include/interpreter/ustr.hpp:104-117 | "th" for 10..19 modulo 100 and for last digits 0 and 4..9; otherwise "st", "nd", "rd" for 1, 2, 3 |
| Config.WordIsAmong | src/interpreter/config.cpp:25 | the word equals some entry of the list, ignoring ASCII case (exact match, not prefix or suffix) |
| Config.MeansAll | src/interpreter/config.cpp:23-26 | true exactly when the lower-cased word is "all" |
| Config.MustIgnore | src/interpreter/config.cpp:28-31 | true exactly when the lower-cased word is in the ignore list |
| Config.LowerOfLowerWords | src/interpreter/config.cpp:18-19 | lower-casing leaves the default lists' entries unchanged |
| Config.MeansAllIsExact | src/interpreter/config.cpp:23-26 | "all" in any case means all; "al", "alla", "" and "all.coin" do not |
| Config.MeansAllIsNotNumber | src/interpreter/config.cpp:23-26 | a word meaning all is never a number, so the two prefix branches exclude each other |
| Args.Token.HasPrefixAll | src/interpreter/argument.cpp:126-129 | true exactly when the FLAG_ALL bit (1 << 1) of the prefix bitmask is set |
| Args.Token.HasQuantity | src/interpreter/argument.cpp:131-134 | true exactly when the FLAG_QUANTITY bit (1 << 2) of the prefix bitmask is set |
| Args.Token.HasIndex | src/interpreter/argument.cpp:136-139 | true exactly when the FLAG_INDEX bit (1 << 3) of the prefix bitmask is set |
| Args.Token.Equals | src/interpreter/argument.cpp:156-159 | compares the content, not the original: equal exactly when the lengths agree and every character matches |
| Args.Token.HasOnlyOnePrefix | src/interpreter/argument.cpp:118-124 | true exactly when no two of ALL, QUANTITY and INDEX are raised |
| Args.Token.MeansAll | src/interpreter/argument.cpp:141-144 | tests the original word, not the content |
| Args.Token.IsAbbreviationOf | src/interpreter/argument.cpp:146-149 | true exactly when the content is at least minLength long, no longer than full, and matches its start (case-folded unless sensitive) |
| Args.Token.MapToOption | src/interpreter/argument.cpp:97-106 | the option of the first entry, in list order, whose names the content is among; 0 when there is none |
| Args.Evaluate | src/interpreter/argument.cpp:192-260 | one evaluation step keeps the original; it either changes nothing or cuts a prefix ending in a symbol off the content |
| Args.EvaluateAll | src/interpreter/argument.cpp:177-190 | both steps keep the original; the content is a suffix of the old content, cut at most twice at a prefix symbol |
| Args.Parsed | src/interpreter/argument.cpp:43-49 | the argument of a word keeps the word as its original; its content is a suffix of the word left after at most two prefixes are cut off |
| Args.Argument.constructor | src/interpreter/argument.cpp:43-49 | the new argument's fields are those of the word with its prefixes evaluated |
| Args.Argument.Parse | src/interpreter/argument.cpp:51-60 | resets every field from the word and evaluates the prefixes, whatever the old state |
| Args.Argument.EvaluateAllPrefix | src/interpreter/argument.cpp:177-190 | the new fields are EvaluateAll of the old ones: the kind whose symbol comes first goes first |
| Args.Argument.EvaluateIndex | src/interpreter/argument.cpp:192-225 | the new fields are one index step from the old ones |
| Args.Argument.EvaluateQuantity | src/interpreter/argument.cpp:227-260 | the new fields are one quantity step from the old ones |
| Args.NewArgument | src/interpreter/argument.cpp:43-49 | the value of a freshly constructed temporary argument is the parse of its word |
| Args.EvaluateFields | src/interpreter/argument.cpp:192-260 | a step only raises flags, only while stripping; it sets only its own field, and only to a value below INT_MAX together with its flag |
| Args.ParsedShape | src/interpreter/argument.cpp:177-260 | after construction the original is the word; the content is a suffix of it after at most two strips, shorter when a flag is raised; each field is 1 without its flag and below INT_MAX with it |
| Args.NoSymbolUnchanged | src/interpreter/argument.cpp:199-202 | without the step's symbol nothing changes |
| Args.NumberWordUntouched | src/interpreter/argument.cpp:195-197 | a word that is a number as a whole keeps its content and gets no flag |
| Args.EvaluateNumber | src/interpreter/argument.cpp:204-216 | a numeric prefix is always cut off; its field and flag are set only when the number is below INT_MAX |
| Args.EvaluateAllWord | src/interpreter/argument.cpp:217-224 | an "all" prefix is cut off and raises ALL, nothing else |
| Args.EvaluateOtherPrefix | src/interpreter/argument.cpp:217-224 | text before the symbol that is neither a number nor "all" leaves the argument completely unchanged |
| Args.EvaluateAllFirst | src/interpreter/argument.cpp:180-189 | the kind whose symbol is found first is evaluated first |
| Args.SingleNumberPrefix | src/interpreter/argument.cpp:206-216 | "N*rest" or "N.rest" with a numeric N and no further symbol: content rest, field and flag set exactly when N < INT_MAX |
| Args.NumberThenSymbol | src/interpreter/argument.cpp:241-251 | after a leading numeric prefix the other kind is evaluated on what is left |
| Args.TwoNumberPrefixes | src/interpreter/argument.cpp:180-189 | two numeric prefixes, one of each kind, are both cut off and each sets its field when below INT_MAX |
| Args.PrefixOrderIrrelevant | src/interpreter/argument.cpp:180-189 | "N*M.rest" and "M.N*rest" give the same content, index, quantity and flags |
| Args.AllPrefixIsNotAll | src/interpreter/argument.cpp:141-144 | "all.coin" raises ALL with content "coin", yet the argument does not mean all |
| Args.NegativePrefixDropped | src/interpreter/argument.cpp:206-216 | a negative number is cut off without setting its field or flag |
| Args.OtherPrefixKept | src/interpreter/argument.cpp:217-224 | "word.rest" whose word is neither a number nor "all" is left as typed |
| Args.EmptyArgument | src/interpreter/argument.cpp:43-49 | the argument of the empty word has empty original and content, both fields 1, no flags |
| Args.QuantityWord | tests/test_look_with_quantity.cpp:11 | "2*box" has quantity 2, the QUANTITY flag and content "box" |
| Args.IndexWord | tests/test_take_with_index.cpp:11 | "2.pen" has index 2, the INDEX flag and content "pen" |
| Args.NumberWord | src/interpreter/argument.cpp:195-197 | "42" keeps content "42" and gets no flag |
| Line.Filter | src/interpreter/interpreter.cpp:124-134 | what both erase loops keep: never longer than the input, and every element kept passes the test |
| Line.FilterMembers | src/interpreter/interpreter.cpp:71-75 | an element survives filtering exactly when it is in the list and passes the test |
| Line.FilterIdempotent | src/interpreter/interpreter.cpp:124-134 | filtering twice is filtering once |
| Line.TokensOf | src/interpreter/interpreter.cpp:71-75 | one argument per word, in order, each the parse of its word |
| Line.TokensOfOriginals | src/interpreter/interpreter.cpp:71-75 | the originals of the arguments built from words are those words |
| Line.Substring | src/interpreter/interpreter.cpp:104-109 | the text the loop has built over a range; a range that stops before the last argument ends in a space |
| Line.SubstringToEnd | src/interpreter/interpreter.cpp:104-109 | up to the end, the originals are joined by single spaces with no trailing space |
| Line.SubstringBeforeLast | src/interpreter/interpreter.cpp:104-109 | a range stopping before the last argument is the originals joined by spaces plus one trailing space |
| Line.SubstringTrailingSpace | src/interpreter/interpreter.cpp:104-109 | a range stopping before the last argument ends in a space |
| Line.SubstringAfterFirstWord | tests/test_say_with_question.cpp:11-16 | for a well-spaced line, the arguments after the first rebuild exactly the text after the first space |
| Line.SubstringOfTail | tests/test_common.hpp:171-173 | once the verb is erased, substr(0) is the text after the first space ("How are you?") |
| Line.Rebuild | src/interpreter/interpreter.cpp:95-111 | the loop both containers' substr run: the original when start is past the arguments, otherwise the range's originals, each followed by a space unless it is the last of the whole list |
| Line.CheckedAt | src/interpreter/interpreter.cpp:54-57 | the element when in range, OutOfRange otherwise |
| Line.ArgumentAt | src/interpreter/interpreter.cpp:157-173 | the element when in range, otherwise an argument equal to Argument("") |
| Interp.Ignorable | src/interpreter/interpreter.cpp:72 | the call of must_ignore answers the configured ignore test |
| Interp.Interpreter.constructor | src/interpreter/interpreter.cpp:10-17 | empty without input, otherwise the parse of the input |
| Interp.Interpreter.Parse | src/interpreter/interpreter.cpp:59-77 | a null input changes nothing; otherwise the original is the input and the arguments are the kept words' parses in order |
| Interp.Interpreter.Find | src/interpreter/interpreter.cpp:79-93 | the first matching argument, with no match before it; none exactly when no argument matches |
| Interp.Interpreter.Substr | src/interpreter/interpreter.cpp:95-111 | the original when start is past the arguments, otherwise the range's originals, each followed by a space unless it is the last of the whole list |
| Interp.Interpreter.Erase | src/interpreter/interpreter.cpp:113-122 | removes exactly the element at the position and shifts the later ones down; out of range changes nothing |
| Interp.Interpreter.RemoveIgnoredWords | src/interpreter/interpreter.cpp:124-134 | the arguments become exactly the old ones whose content is not ignorable, in order |
| Interp.Interpreter.Get | src/interpreter/interpreter.cpp:54-57 | the element when in range, OutOfRange otherwise |
| Interp.Interpreter.At | src/interpreter/interpreter.cpp:157-173 | the element when in range, otherwise an argument equal to Argument("") |
| Interp.ParseEmptyLine | src/interpreter/interpreter.cpp:59-77 | an empty line gives no arguments |
| Interp.KeptWordsExactly | src/interpreter/interpreter.cpp:71-75 | with ignore, exactly the ignorable words are dropped; without it every word is kept; the originals are the kept words |
| Interp.RemoveIgnoredTwice | src/interpreter/interpreter.cpp:124-134 | afterwards no content is ignorable, so a second call removes nothing |
| Interp.IgnoreTestsWordNotContent | src/interpreter/interpreter.cpp:124-134 | parse tests the word and remove_ignored_words the content: "2*the" survives the first and not the second |
| Interp.SymbolWordNotIgnored | src/interpreter/config.cpp:19 | no ignorable word holds a '*' |
| Handler.FillWords | include/interpreter/argument_handler.hpp:237-240 | the 19 entries before the terminator, none of them empty |
| Handler.ArgumentHandler.constructor | include/interpreter/argument_handler.hpp:26-30 | no line and no arguments |
| Handler.ArgumentHandler.IsFillWord | include/interpreter/argument_handler.hpp:235-248 | the scan up to the terminator answers exactly whether the lower-cased word is a fill word |
| Handler.ArgumentHandler.Keeps | include/interpreter/argument_handler.hpp:54-55 | a word is kept unless fill words are skipped and it is one |
| Handler.ArgumentHandler.Parse | include/interpreter/argument_handler.hpp:41-59 | an empty input changes nothing; otherwise the original is the input and the arguments are the kept words' parses in order |
| Handler.ArgumentHandler.Find | include/interpreter/argument_handler.hpp:115-129 | the first matching argument, with no match before it; none exactly when no argument matches |
| Handler.ArgumentHandler.Get | include/interpreter/argument_handler.hpp:134-137 | the element when in range, OutOfRange otherwise |
| Handler.ArgumentHandler.At | include/interpreter/argument_handler.hpp:142-161 | the element when in range, otherwise an argument equal to Argument("") |
| Handler.ArgumentHandler.Substr | include/interpreter/argument_handler.hpp:167-183 | the original when start is past the arguments, otherwise the range's originals, each followed by a space unless it is the last of the whole list |
| Handler.ArgumentHandler.Erase | include/interpreter/argument_handler.hpp:187-196 | removes exactly the element at the position and shifts the later ones down; out of range changes nothing |
| Handler.ArgumentHandler.RemoveFillWords | include/interpreter/argument_handler.hpp:199-209 | the arguments become exactly the old ones whose content is not a fill word, in order |
| Handler.FillWordAt | include/interpreter/argument_handler.hpp:242-246 | a word whose lower-cased form is a table entry before the terminator is a fill word |
| Handler.FillWordExamples | include/interpreter/argument_handler.hpp:237-242 | the empty word (the terminator) is not a fill word; "da", "Su", "IL" and "con" are |
| Handler.KeptWordsExactly | include/interpreter/argument_handler.hpp:53-57 | with skipping, exactly the fill words are dropped; without it every word is kept; the originals are the kept words |
| Handler.RemoveFillWordsTwice | include/interpreter/argument_handler.hpp:199-209 | afterwards no content is a fill word, so a second call removes nothing |
| Handler.FindAgrees | include/interpreter/argument_handler.hpp:115-129 | both revisions' find match alike: beginWith with n = -1 and begin_with with n = 0 both compare the whole prefix, case-insensitively |
| Handler.FillWordsAndIgnoreList | include/interpreter/argument_handler.hpp:237-240 | the fill words and the ignore list differ: "an" is only ignorable, "da" only a fill word |

## Left out

- `dump()` in both containers and the `std::cerr` message of `erase` are console output. Erasing out of range is modelled as a no-op.
- Ustr.Strtol: leading white space, which `strtol` would skip, is not modelled. No word of a line split on spaces starts with a space, but a tab would be skipped by `strtol` and is not here.
- Ustr.Lower: `std::tolower` is modelled for ASCII only. Other locales are not modelled.
- Ustr.BeginWith: the `&prefix == &source` shortcut is left out. It tests object identity, which has no meaning on values.
- Interp.Interpreter.At, Handler.ArgumentHandler.At: they return a fresh `Argument("")` value in place of the shared `static` sentinel. They return copies, not the mutable references the source hands out, so a caller's later change to the sentinel or to an element is not modelled.
- Interp.Interpreter.Get, Handler.ArgumentHandler.Get: they return a copy, not a reference into the vector.
- `set_content`, `set_index` and `set_quantity`, and the mutable `char &operator[]` on the content, are not modelled. They are raw unchecked writes.
- The read-only accessors are left out: `length`, `empty`, `get_original`, `get_content`, `get_index`, `get_quantity`, `is_number`, the const `operator[]` on characters and `operator<<`. So are the containers' `size`, `empty`, `get_original` and iterators. Each only reads a field.
- Config: the lists and symbols are the defaults. Reassigning configuration at run time is not modelled, nor is the duplicate of the configuration at the top of `src/interpreter/argument.cpp`.
- Config.WordIsAmong: `word_is_among` is not part of this model. Only its exact, case-insensitive mode is modelled, the one configuration and the containers use.
- Args.Token.MapToOption: the `sensitive`, `begins_with`, `ends_with` and `exact_match` flags are not parameters. The caller passes the list test itself, as a function standing for `word_is_among` under the flags it chose. The lambda overload used by the command handlers is not modelled.
- `ustr::split`, `ustr::is_number`, `to_number`, `is_abbreviation_of` and `begin_with` from the external `ustr` library are not part of this model. They are modelled after `split`, `isNumber`, `toNumber`, `isAbbrev` and `beginWith` of `include/interpreter/ustr.hpp`. The `Interpreter` reaches them through `<ustr/check.hpp>`, `<ustr/manipulate.hpp>` and `<ustr/utility.hpp>` (`include/interpreter/argument.hpp:8-10`); it never includes `ustr.hpp`. So `Interp.Interpreter.Parse`, which calls `ustr::split` (`src/interpreter/interpreter.cpp:67`), is modelled with `Ustr.Split` (`include/interpreter/ustr.hpp:58-72`). `Args.Token.IsAbbreviationOf` folds case unless `sensitive`, as its callers expect.
- Handler.ArgumentHandler: its arguments are modelled with the `Argument` of `src/interpreter/argument.cpp`. The container calls an older camel-case API (`getContent`, `getOriginal`, `hasPrefixAll`; `include/interpreter/argument_handler.hpp:119,177,203,226`) whose implementation is not part of this model, and the model takes it to mean the same as `get_content`, `get_original` and `has_prefix_all`.
- Text: `std::string` holds bytes, while the model's `string` holds Unicode characters. The lengths that `isAbbrev`, `is_abbreviation_of` and `beginWith` compare count characters here, and agree with the byte counts only for ASCII input.
- Interp.Interpreter.Substr, Handler.ArgumentHandler.Substr: an `end` past the number of arguments reads out of bounds (undefined behaviour), so it is excluded by the precondition.
- Interp.Interpreter.RemoveIgnoredWords, Handler.ArgumentHandler.RemoveFillWords: the source erases from `arguments` in place (`src/interpreter/interpreter.cpp:126-133`, `include/interpreter/argument_handler.hpp:201-208`). The model's loop works on a local copy of the vector instead and assigns it to the field at the end. The result and order are the same; iterator invalidation is not modelled.
- The header declarations are not modelled: `include/interpreter/argument.hpp`, `include/interpreter/interpreter.hpp` and `include/interpreter/config.hpp`. They disagree with the `.cpp` files in a few places, such as boolean flags against bitmasks and camel-case names, and the model follows the `.cpp` files. The flags are three booleans, and `Args.Mask` gives the bitmask they stand for.
- The command handlers (`say`, `look`, `take`, `put`, `configure`), the read loop in `examples/actions.cpp`, stdout capture and `examples/ansi.hpp` are not modelled. Their test inputs only supply concrete examples.
- Interp.Interpreter.constructor, Interp.Interpreter.Parse: `const char *` is modelled as `Option<string>`, with `None` standing for the null pointer.
- `Argument` values in the vector are modelled as `Token` values, because a `std::vector<Argument>` holds copies. The class `Argument` models the in-place evaluation of one argument.
