/** The string utilities of the interpreter (`interpreter::ustr`): numeric
    checks and conversion, ASCII lower-casing, abbreviation and prefix tests,
    splitting on delimiters and English ordinal suffixes. */
module Ustr {

  /** The characters `isNumber` accepts, in any order and number. */
  const NumberChars: string := "+-0123456789"

  /** Platform limits taken by the model (LP64: 32-bit `int`, 64-bit
      `long` and `std::size_t`). */
  const IntMax: int := 0x7FFF_FFFF
  const LongMax: int := 0x7FFF_FFFF_FFFF_FFFF
  const LongMin: int := -0x8000_0000_0000_0000
  const SizeModulus: int := 0x1_0000_0000_0000_0000

  // ---------------------------------------------------------------------
  // Searching (the `std::string` members the utilities rely on)
  // ---------------------------------------------------------------------

  /** `s.find_first_of(d, from)`: the first position at or after `from`
      holding a character of `d`. `|s|` stands for `npos`: every position
      that is found is smaller, so comparisons of positions agree. */
  function FindFirstOf(s: string, d: string, from: nat): (r: nat)
    requires from <= |s|
    ensures from <= r <= |s|
    ensures r < |s| ==> s[r] in d
    decreases |s| - from
  {
    if from == |s| then |s|
    else if s[from] in d then from
    else FindFirstOf(s, d, from + 1)
  }

  /** No character of `d` stands between `from` and the position found. */
  lemma {:induction false} FindFirstOfSkips(s: string, d: string, from: nat)
    requires from <= |s|
    ensures forall j :: from <= j < FindFirstOf(s, d, from) ==> s[j] !in d
    decreases |s| - from
  {
    if from < |s| && s[from] !in d {
      FindFirstOfSkips(s, d, from + 1);
    }
  }

  /** `s.find_first_not_of(d, from)`, with `|s|` for `npos`. */
  function FindFirstNotOf(s: string, d: string, from: nat): (r: nat)
    requires from <= |s|
    ensures from <= r <= |s|
    ensures r < |s| ==> s[r] !in d
    ensures forall j :: from <= j < r ==> s[j] in d
    decreases |s| - from
  {
    if from == |s| then |s|
    else if s[from] !in d then from
    else FindFirstNotOf(s, d, from + 1)
  }

  /** Searching a suffix finds the same position, shifted. */
  lemma {:induction false} FindFirstOfShift(s: string, d: string, c: nat, i: nat)
    requires c + i <= |s|
    ensures FindFirstOf(s[c..], d, i) == FindFirstOf(s, d, c + i) - c
    decreases |s| - c - i
  {
    if c + i < |s| {
      assert s[c..][i] == s[c + i];
      if s[c + i] !in d {
        FindFirstOfShift(s, d, c, i + 1);
      }
    }
  }

  // ---------------------------------------------------------------------
  // isNumber / toNumber
  // ---------------------------------------------------------------------

  /** `isNumber`: a non-empty string made only of signs and digits. Signs
      may stand anywhere, so "-", "+-" and "1-2" are numbers too. */
  function IsNumber(s: string): (r: bool)
    ensures r <==> |s| > 0 && forall i :: 0 <= i < |s| ==> s[i] in NumberChars
  {
    if s == [] then false else FindFirstNotOf(s, NumberChars, 0) == |s|
  }

  predicate IsDigit(c: char) {
    '0' <= c <= '9'
  }

  predicate AllDigits(s: string) {
    forall i :: 0 <= i < |s| ==> IsDigit(s[i])
  }

  function DigitValue(c: char): nat
    requires IsDigit(c)
  {
    (c as int) - ('0' as int)
  }

  /** The decimal value of a string of digits, most significant first. */
  function DecimalValue(ds: string): nat
    requires AllDigits(ds)
    decreases |ds|
  {
    if ds == [] then 0
    else DecimalValue(ds[..|ds| - 1]) * 10 + DigitValue(ds[|ds| - 1])
  }

  /** The length of the run of digits that starts `s`. */
  function LeadingDigits(s: string): (k: nat)
    ensures k <= |s| && AllDigits(s[..k])
    ensures k < |s| ==> !IsDigit(s[k])
  {
    if s == [] || !IsDigit(s[0]) then 0
    else
      var k := 1 + LeadingDigits(s[1..]);
      assert s[..k] == [s[0]] + s[1..][..k - 1];
      k
  }

  lemma {:induction false} LeadingDigitsAll(ds: string)
    requires AllDigits(ds)
    ensures LeadingDigits(ds) == |ds|
    decreases |ds|
  {
    if ds != [] {
      LeadingDigitsAll(ds[1..]);
    }
  }

  /** `strtol(s, &end, 10)` over 64-bit `long`, for strings without leading
      white space: an optional sign and the longest run of digits after it;
      no digits gives 0; out-of-range values saturate. */
  function Strtol(s: string): (v: int)
    ensures LongMin <= v <= LongMax
  {
    var negative := |s| > 0 && s[0] == '-';
    var start := if |s| > 0 && (s[0] == '+' || s[0] == '-') then 1 else 0;
    var body := s[start..];
    var magnitude: int := DecimalValue(body[..LeadingDigits(body)]);
    if negative then (if -magnitude < LongMin then LongMin else -magnitude)
    else (if magnitude > LongMax then LongMax else magnitude)
  }

  /** `toNumber<std::size_t>`: `strtol` followed by the cast of a `long` to
      the unsigned 64-bit `std::size_t`: a negative value wraps around
      modulo 2^64. */
  function ToNumber(s: string): (n: nat)
    ensures n < SizeModulus
    ensures n % SizeModulus == Strtol(s) % SizeModulus
  {
    var v := Strtol(s);
    if v < 0 then v + SizeModulus else v
  }

  /** For a string of digits, the conversion is the decimal value whenever
      that value is below `INT_MAX`, and is itself below `INT_MAX` only then. */
  lemma ToNumberOfDigits(ds: string)
    requires |ds| > 0 && AllDigits(ds)
    ensures ToNumber(ds) < IntMax <==> DecimalValue(ds) < IntMax
    ensures DecimalValue(ds) < IntMax ==> ToNumber(ds) == DecimalValue(ds)
  {
    LeadingDigitsAll(ds);
    assert ds[0] != '+' && ds[0] != '-';
    assert ds[0..][..|ds|] == ds;
    var m := DecimalValue(ds);
    var v := if m > LongMax then LongMax else m;
    assert Strtol(ds) == v;
  }

  /** A minus sign before a positive number makes the converted value wrap
      around to at least 2^63, so it is never below `INT_MAX`. */
  lemma NegativeToNumberRejected(ds: string)
    requires AllDigits(ds) && DecimalValue(ds) > 0
    ensures ToNumber("-" + ds) >= IntMax
  {
    var s := "-" + ds;
    assert s[1..] == ds;
    LeadingDigitsAll(ds);
    assert ds[..|ds|] == ds;
    var m := DecimalValue(ds);
    var v := if -m < LongMin then LongMin else -m;
    assert Strtol(s) == v;
  }

  // ---------------------------------------------------------------------
  // toLower
  // ---------------------------------------------------------------------

  /** `std::tolower` restricted to ASCII. */
  function LowerChar(c: char): char {
    if 'A' <= c <= 'Z' then (c as int + 32) as char else c
  }

  /** The ASCII lower-case form of `s`, character by character. */
  function Lower(s: string): (r: string)
    ensures |r| == |s|
    ensures forall i :: 0 <= i < |s| ==> r[i] == LowerChar(s[i])
  {
    if s == [] then [] else [LowerChar(s[0])] + Lower(s[1..])
  }

  /** `toLower`: builds the result one character at a time. */
  method ToLower(s: string) returns (sr: string)
    ensures sr == Lower(s)
  {
    sr := [];
    var i := 0;
    while i < |s|
      invariant 0 <= i <= |s|
      invariant |sr| == i
      invariant forall j :: 0 <= j < i ==> sr[j] == LowerChar(s[j])
    {
      sr := sr + [LowerChar(s[i])];
      i := i + 1;
    }
  }

  /** Lower-casing twice is lower-casing once. */
  lemma LowerIdempotent(s: string)
    ensures Lower(Lower(s)) == Lower(s)
  {
  }

  // ---------------------------------------------------------------------
  // isAbbrev
  // ---------------------------------------------------------------------

  /** `isAbbrev(master, source, minLength)`: `source` is at least `minLength`
      long and is a case-sensitive prefix of `master`. */
  function IsAbbrev(master: string, source: string, minLength: nat): (r: bool)
    ensures r <==> minLength <= |source| <= |master| && source == master[..|source|]
  {
    |source| >= minLength && |source| <= |master|
    && forall i :: 0 <= i < |source| ==> source[i] == master[i]
  }

  // ---------------------------------------------------------------------
  // split
  // ---------------------------------------------------------------------

  /** The pieces `split` collects from position `from` on: the maximal runs
      of characters not in `d`, left to right, with no empty piece. */
  function WordsFrom(s: string, d: string, from: nat): seq<string>
    requires from <= |s|
    decreases |s| - from
  {
    if from == |s| then []
    else
      var next := FindFirstOf(s, d, from);
      if next == from then WordsFrom(s, d, from + 1)
      else if next == |s| then [s[from..]]
      else [s[from..next]] + WordsFrom(s, d, next + 1)
  }

  /** A delimiter at `from` starts no piece. */
  lemma WordsFromSkip(s: string, d: string, from: nat)
    requires from < |s| && FindFirstOf(s, d, from) == from
    ensures WordsFrom(s, d, from) == WordsFrom(s, d, from + 1)
  {
  }

  /** A piece running to the end is the last one. */
  lemma WordsFromLast(s: string, d: string, from: nat)
    requires from < |s| && FindFirstOf(s, d, from) == |s|
    ensures WordsFrom(s, d, from) == [s[from..]]
  {
  }

  /** A piece ended by a delimiter: the piece, then the pieces after the
      delimiter. */
  lemma WordsFromNext(s: string, d: string, from: nat, next: nat)
    requires from < next < |s| && next == FindFirstOf(s, d, from)
    ensures WordsFrom(s, d, from) == [s[from..next]] + WordsFrom(s, d, next + 1)
  {
  }

  /** The pieces `split(s, d)` returns. */
  function Words(s: string, d: string): seq<string> {
    WordsFrom(s, d, 0)
  }

  /** The concatenation of a list of strings. */
  function Concat(ws: seq<string>): string {
    if ws == [] then [] else ws[0] + Concat(ws[1..])
  }

  /** `s` from position `from` on, with every character of `d` removed. */
  function WithoutFrom(s: string, d: string, from: nat): string
    requires from <= |s|
    decreases |s| - from
  {
    if from == |s| then [] else (if s[from] in d then [] else [s[from]]) + WithoutFrom(s, d, from + 1)
  }

  /** `s` with every character of `d` removed. */
  function Without(s: string, d: string): string {
    WithoutFrom(s, d, 0)
  }

  /** What the loop of `split` computes from cursor `curr` on, having
      collected `acc` so far. */
  function SplitLoop(s: string, d: string, curr: nat, acc: seq<string>): seq<string>
    requires curr <= |s|
    decreases |s| - curr
  {
    var next := FindFirstOf(s, d, curr);
    if next == |s| then (if curr < |s| then acc + [s[curr..]] else acc)
    else SplitLoop(s, d, next + 1, if next > curr then acc + [s[curr..next]] else acc)
  }

  lemma AppendAssoc<T>(a: seq<T>, b: seq<T>, c: seq<T>)
    ensures (a + b) + c == a + (b + c)
  {
  }

  /** The loop collects exactly the pieces `WordsFrom` describes. */
  lemma {:induction false} SplitLoopWords(s: string, d: string, curr: nat, acc: seq<string>)
    requires curr <= |s|
    ensures SplitLoop(s, d, curr, acc) == acc + WordsFrom(s, d, curr)
    decreases |s| - curr
  {
    var next := FindFirstOf(s, d, curr);
    if next < |s| {
      var acc' := if next > curr then acc + [s[curr..next]] else acc;
      SplitLoopWords(s, d, next + 1, acc');
      SplitLoopStep(s, d, curr, acc, acc');
    } else {
      SplitLoopStop(s, d, curr, acc);
    }
  }

  /** The loop of `split` once no delimiter is left. */
  lemma SplitLoopStop(s: string, d: string, curr: nat, acc: seq<string>)
    requires curr <= |s| && FindFirstOf(s, d, curr) == |s|
    ensures SplitLoop(s, d, curr, acc) == acc + WordsFrom(s, d, curr)
  {
    if curr < |s| {
      WordsFromLast(s, d, curr);
    } else {
      AppendEmpty(acc);
    }
  }

  /** The loop of `split` over the next delimiter, with the piece before it
      collected when it is not empty. */
  lemma SplitLoopStep(s: string, d: string, curr: nat, acc: seq<string>, acc': seq<string>)
    requires curr <= |s| && curr <= FindFirstOf(s, d, curr) < |s|
    requires var next := FindFirstOf(s, d, curr);
             acc' == (if next > curr then acc + [s[curr..next]] else acc)
             && SplitLoop(s, d, next + 1, acc') == acc' + WordsFrom(s, d, next + 1)
    ensures SplitLoop(s, d, curr, acc) == acc + WordsFrom(s, d, curr)
  {
    var next := FindFirstOf(s, d, curr);
    if next == curr {
      SplitLoopSkip(s, d, curr, acc);
    } else {
      SplitLoopNext(s, d, curr, next, acc);
    }
  }

  /** The loop of `split` over a delimiter. */
  lemma SplitLoopSkip(s: string, d: string, curr: nat, acc: seq<string>)
    requires curr < |s| && FindFirstOf(s, d, curr) == curr
    requires SplitLoop(s, d, curr + 1, acc) == acc + WordsFrom(s, d, curr + 1)
    ensures SplitLoop(s, d, curr, acc) == acc + WordsFrom(s, d, curr)
  {
    WordsFromSkip(s, d, curr);
  }

  /** The loop of `split` over a piece ended by a delimiter. */
  lemma SplitLoopNext(s: string, d: string, curr: nat, next: nat, acc: seq<string>)
    requires curr < next < |s| && next == FindFirstOf(s, d, curr)
    requires SplitLoop(s, d, next + 1, acc + [s[curr..next]]) == (acc + [s[curr..next]]) + WordsFrom(s, d, next + 1)
    ensures SplitLoop(s, d, curr, acc) == acc + WordsFrom(s, d, curr)
  {
    WordsFromNext(s, d, curr, next);
    AppendAssoc(acc, [s[curr..next]], WordsFrom(s, d, next + 1));
  }

  /** `split`: advances two cursors over `s` and collects the non-empty
      pieces between delimiters. */
  method Split(s: string, delimiter: string) returns (result: seq<string>)
    ensures result == Words(s, delimiter)
  {
    result := [];
    var curr := 0;
    var next := FindFirstOf(s, delimiter, curr);
    while next != |s|
      invariant curr <= next <= |s|
      invariant next == FindFirstOf(s, delimiter, curr)
      invariant SplitLoop(s, delimiter, curr, result) == SplitLoop(s, delimiter, 0, [])
      decreases |s| - curr
    {
      if next - curr > 0 {
        result := result + [s[curr..next]];
      }
      curr := next + 1;
      next := FindFirstOf(s, delimiter, curr);
    }
    var last := s[curr..];
    if |last| > 0 {
      result := result + [last];
    }
    SplitLoopWords(s, delimiter, 0, []);
  }

  /** Every piece is non-empty and holds no delimiter. */
  lemma {:induction false} WordsFromArePieces(s: string, d: string, from: nat)
    requires from <= |s|
    ensures forall i :: 0 <= i < |WordsFrom(s, d, from)| ==>
              |WordsFrom(s, d, from)[i]| > 0
              && forall j :: 0 <= j < |WordsFrom(s, d, from)[i]| ==> WordsFrom(s, d, from)[i][j] !in d
    decreases |s| - from
  {
    if from < |s| {
      var next := FindFirstOf(s, d, from);
      FindFirstOfSkips(s, d, from);
      if next < |s| {
        WordsFromArePieces(s, d, next + 1);
      }
    }
  }

  lemma {:induction false} ConcatAppend(a: seq<string>, b: seq<string>)
    ensures Concat(a + b) == Concat(a) + Concat(b)
    decreases |a|
  {
    if a == [] {
      assert a + b == b;
    } else {
      assert (a + b)[1..] == a[1..] + b;
      ConcatAppend(a[1..], b);
    }
  }

  /** A stretch free of delimiters is kept as it is. */
  lemma {:induction false} WithoutRun(s: string, d: string, from: nat, next: nat)
    requires from <= next <= |s|
    requires forall j :: from <= j < next ==> s[j] !in d
    ensures WithoutFrom(s, d, from) == s[from..next] + WithoutFrom(s, d, next)
    decreases next - from
  {
    if from < next {
      WithoutRun(s, d, from + 1, next);
      var rest := WithoutFrom(s, d, next);
      assert s[from..next] == [s[from]] + s[from + 1..next];
      calc {
        WithoutFrom(s, d, from);
        [s[from]] + WithoutFrom(s, d, from + 1);
        [s[from]] + (s[from + 1..next] + rest);
        { AppendAssoc([s[from]], s[from + 1..next], rest); }
        ([s[from]] + s[from + 1..next]) + rest;
        s[from..next] + rest;
      }
    } else {
      assert s[from..next] == [];
    }
  }

  /** Read in order, the pieces give back the text without its delimiters. */
  lemma {:induction false} WordsFromConcat(s: string, d: string, from: nat)
    requires from <= |s|
    ensures Concat(WordsFrom(s, d, from)) == WithoutFrom(s, d, from)
    decreases |s| - from
  {
    if from < |s| {
      var next := FindFirstOf(s, d, from);
      if next == from {
        WordsFromConcat(s, d, from + 1);
        ConcatSkip(s, d, from);
      } else if next < |s| {
        WordsFromConcat(s, d, next + 1);
        ConcatNext(s, d, from, next);
      } else {
        ConcatLast(s, d, from);
      }
    } else {
      assert WordsFrom(s, d, from) == [] && WithoutFrom(s, d, from) == [];
    }
  }

  /** The step of `WordsFromConcat` over a delimiter. */
  lemma ConcatSkip(s: string, d: string, from: nat)
    requires from < |s| && FindFirstOf(s, d, from) == from
    requires Concat(WordsFrom(s, d, from + 1)) == WithoutFrom(s, d, from + 1)
    ensures Concat(WordsFrom(s, d, from)) == WithoutFrom(s, d, from)
  {
    WordsFromSkip(s, d, from);
    WithoutSkip(s, d, from);
  }

  /** The step of `WordsFromConcat` over a piece ended by a delimiter. */
  lemma ConcatNext(s: string, d: string, from: nat, next: nat)
    requires from < next < |s| && next == FindFirstOf(s, d, from)
    requires Concat(WordsFrom(s, d, next + 1)) == WithoutFrom(s, d, next + 1)
    ensures Concat(WordsFrom(s, d, from)) == WithoutFrom(s, d, from)
  {
    var piece := s[from..next];
    FindFirstOfSkips(s, d, from);
    WithoutRun(s, d, from, next);
    WithoutSkip(s, d, next);
    WordsFromNext(s, d, from, next);
    ConcatCons(piece, WordsFrom(s, d, next + 1));
  }

  /** The last step of `WordsFromConcat`: a piece running to the end. */
  lemma ConcatLast(s: string, d: string, from: nat)
    requires from < |s| && FindFirstOf(s, d, from) == |s|
    ensures Concat(WordsFrom(s, d, from)) == WithoutFrom(s, d, from)
  {
    FindFirstOfSkips(s, d, from);
    WithoutRun(s, d, from, |s|);
    WordsFromLast(s, d, from);
    ConcatCons(s[from..], []);
    assert s[from..|s|] == s[from..];
    AppendEmpty(s[from..]);
  }

  /** A delimiter is dropped. */
  lemma WithoutSkip(s: string, d: string, k: nat)
    requires k < |s| && s[k] in d
    ensures WithoutFrom(s, d, k) == WithoutFrom(s, d, k + 1)
  {
    EmptyAppend(WithoutFrom(s, d, k + 1));
  }

  lemma EmptyAppend<T>(a: seq<T>)
    ensures [] + a == a
  {
  }

  lemma AppendEmpty<T>(a: seq<T>)
    ensures a + [] == a
  {
  }

  /** Concatenating a word in front of a list. */
  lemma ConcatCons(w: string, rest: seq<string>)
    ensures Concat([w] + rest) == w + Concat(rest)
  {
    assert ([w] + rest)[1..] == rest;
  }

  /** `split` drops the delimiters and keeps every other character, in order;
      no piece is empty, so runs of delimiters produce no empty words. */
  lemma WordsSpec(s: string, d: string)
    ensures Concat(Words(s, d)) == Without(s, d)
    ensures forall i :: 0 <= i < |Words(s, d)| ==> |Words(s, d)[i]| > 0
    ensures forall i, j :: 0 <= i < |Words(s, d)| && 0 <= j < |Words(s, d)[i]| ==> Words(s, d)[i][j] !in d
  {
    WordsFromConcat(s, d, 0);
    WordsFromArePieces(s, d, 0);
  }

  /** A string made only of delimiters (the empty one included) has no piece. */
  lemma {:induction false} WordsFromDelimiters(s: string, d: string, from: nat)
    requires from <= |s|
    requires forall j :: from <= j < |s| ==> s[j] in d
    ensures WordsFrom(s, d, from) == []
    decreases |s| - from
  {
    if from < |s| {
      assert FindFirstOf(s, d, from) == from;
      WordsFromDelimiters(s, d, from + 1);
    }
  }

  /** The words of a list joined with one `sep` between neighbours. */
  function JoinWith(ws: seq<string>, sep: char): string {
    if ws == [] then []
    else if |ws| == 1 then ws[0]
    else ws[0] + [sep] + JoinWith(ws[1..], sep)
  }

  /** Joining one more word adds a separator and the word. */
  lemma {:induction false} JoinWithSnoc(ws: seq<string>, w: string, sep: char)
    requires ws != []
    ensures JoinWith(ws + [w], sep) == JoinWith(ws, sep) + [sep] + w
    decreases |ws|
  {
    if |ws| == 1 {
      assert (ws + [w])[1..] == [w];
    } else {
      assert (ws + [w])[1..] == ws[1..] + [w];
      JoinWithSnoc(ws[1..], w, sep);
    }
  }

  /** A text written with single separators: not empty, neither starting
      nor ending with `sep`, and never holding two in a row. */
  predicate WellSpaced(s: string, sep: char) {
    |s| > 0 && s[0] != sep && s[|s| - 1] != sep
    && forall i :: 0 <= i < |s| - 1 ==> !DoubleSeparator(s, sep, i)
  }

  /** Two separators in a row at `i`. */
  predicate DoubleSeparator(s: string, sep: char, i: nat)
    requires i < |s| - 1
  {
    s[i] == sep && s[i + 1] == sep
  }

  /** In a well-spaced text a separator is followed by a word character. */
  lemma SeparatorThenWord(s: string, sep: char, k: nat)
    requires WellSpaced(s, sep) && k < |s| && s[k] == sep
    ensures k + 1 < |s| && s[k + 1] != sep
  {
    if k + 1 < |s| {
      assert !DoubleSeparator(s, sep, k);
    }
  }

  /** From the start of a word of a well-spaced text, joining the pieces
      with the separator gives the rest of the text back. */
  lemma {:induction false} WordsFromJoin(s: string, sep: char, from: nat)
    requires WellSpaced(s, sep) && from < |s| && s[from] != sep
    ensures |WordsFrom(s, [sep], from)| > 0
    ensures JoinWith(WordsFrom(s, [sep], from), sep) == s[from..]
    decreases |s| - from
  {
    var next := FindFirstOf(s, [sep], from);
    if next < |s| {
      SeparatorThenWord(s, sep, next);
      WordsFromJoin(s, sep, next + 1);
      JoinNext(s, sep, from, next);
    } else {
      JoinLast(s, sep, from);
    }
  }

  /** The step of `WordsFromJoin`: the first word, its separator, then the
      rest joined back. */
  lemma JoinNext(s: string, sep: char, from: nat, next: nat)
    requires from < next < |s| && s[from] != sep && next == FindFirstOf(s, [sep], from)
    requires |WordsFrom(s, [sep], next + 1)| > 0
    requires JoinWith(WordsFrom(s, [sep], next + 1), sep) == s[next + 1..]
    ensures |WordsFrom(s, [sep], from)| > 0
    ensures JoinWith(WordsFrom(s, [sep], from), sep) == s[from..]
  {
    WordsFromNext(s, [sep], from, next);
    JoinCons(s[from..next], WordsFrom(s, [sep], next + 1), sep);
    CutAt(s, from, next);
  }

  /** The last step of `WordsFromJoin`: a word running to the end. */
  lemma JoinLast(s: string, sep: char, from: nat)
    requires from < |s| && s[from] != sep && FindFirstOf(s, [sep], from) == |s|
    ensures |WordsFrom(s, [sep], from)| > 0
    ensures JoinWith(WordsFrom(s, [sep], from), sep) == s[from..]
  {
    assert s[from..|s|] == s[from..];
    assert WordsFrom(s, [sep], from) == [s[from..]];
  }

  /** A text cut around its character at `k`. */
  lemma CutAt(s: string, from: nat, k: nat)
    requires from <= k < |s|
    ensures s[from..] == s[from..k] + [s[k]] + s[k + 1..]
  {
  }

  /** Joining a word in front of a non-empty list puts one separator
      between them. */
  lemma JoinCons(head: string, rest: seq<string>, sep: char)
    requires rest != []
    ensures JoinWith([head] + rest, sep) == head + [sep] + JoinWith(rest, sep)
  {
    assert ([head] + rest)[1..] == rest;
  }

  /** `split` and joining with single spaces are inverse on well-spaced
      text. */
  lemma SplitJoinRoundTrip(s: string, sep: char)
    requires WellSpaced(s, sep)
    ensures JoinWith(Words(s, [sep]), sep) == s
  {
    WordsFromJoin(s, sep, 0);
    assert s[0..] == s;
  }

  /** The words after the first one of a well-spaced text, joined again,
      are the text after its first separator. */
  lemma DropFirstWord(s: string, sep: char)
    requires WellSpaced(s, sep)
    ensures var next := FindFirstOf(s, [sep], 0);
            |Words(s, [sep])| > 0
            && Words(s, [sep])[0] == s[..next]
            && (next < |s| ==> JoinWith(Words(s, [sep])[1..], sep) == s[next + 1..])
            && (next == |s| ==> Words(s, [sep]) == [s])
  {
    var next := FindFirstOf(s, [sep], 0);
    WordsFromJoin(s, sep, 0);
    if next < |s| {
      SeparatorThenWord(s, sep, next);
      WordsFromJoin(s, sep, next + 1);
      var rest := WordsFrom(s, [sep], next + 1);
      assert Words(s, [sep]) == [s[..next]] + rest;
      assert ([s[..next]] + rest)[1..] == rest;
    } else {
      assert s[..next] == s;
    }
  }

  // ---------------------------------------------------------------------
  // beginWith
  // ---------------------------------------------------------------------

  /** Character comparison, folded to lower case unless `sensitive`. */
  predicate CharMatches(a: char, b: char, sensitive: bool) {
    if sensitive then a == b else LowerChar(a) == LowerChar(b)
  }

  /** What `beginWith(source, prefix, sensitive, n)` answers: false when
      `prefix` is longer than `source` or either is empty; otherwise whether
      the first `n` characters of `prefix` (all of them when `n <= 0` or
      `n >= |prefix|`) match the start of `source`. */
  predicate BeginsWith(source: string, prefix: string, sensitive: bool, n: int) {
    if |prefix| > |source| || |source| == 0 || |prefix| == 0 then false
    else
      var m := if 0 < n < |prefix| then n else |prefix|;
      forall i :: 0 <= i < m ==> CharMatches(prefix[i], source[i], sensitive)
  }

  /** `beginWith`: walks both strings, counting `n` down, and answers as
      soon as `n` characters have matched. */
  method BeginWith(source: string, prefix: string, sensitive: bool, n: int) returns (b: bool)
    ensures b == BeginsWith(source, prefix, sensitive, n)
  {
    if |prefix| > |source| {
      return false;
    }
    if |source| == 0 || |prefix| == 0 {
      return false;
    }
    var k := n;
    var i := 0;
    while i < |prefix| && CharMatches(prefix[i], source[i], sensitive)
      invariant 0 <= i <= |prefix|
      invariant forall j :: 0 <= j < i ==> CharMatches(prefix[j], source[j], sensitive)
      invariant n > 0 ==> k == n - i && k > 0
      invariant n <= 0 ==> k == n
    {
      if k > 0 {
        k := k - 1;
        if k <= 0 {
          return true;
        }
      }
      i := i + 1;
    }
    b := i == |prefix|;
  }

  /** Case-sensitively with no count, `beginWith` is the literal prefix test. */
  lemma BeginsWithSensitive(source: string, prefix: string, n: int)
    requires n <= 0
    ensures BeginsWith(source, prefix, true, n) <==> |prefix| > 0 && prefix <= source
  {
    if |prefix| > 0 && prefix <= source {
      assert forall i :: 0 <= i < |prefix| ==> prefix[i] == source[i];
    }
  }

  /** Case-insensitively with no count, `beginWith` is the literal prefix test
      on the lower-cased strings. */
  lemma BeginsWithFolded(source: string, prefix: string, n: int)
    requires n <= 0
    ensures BeginsWith(source, prefix, false, n) <==> |prefix| > 0 && Lower(prefix) <= Lower(source)
  {
    var lp, ls := Lower(prefix), Lower(source);
    if |prefix| > 0 && lp <= ls {
      assert forall i :: 0 <= i < |prefix| ==> lp[i] == ls[i];
    }
  }

  /** With a positive count, only the first `min(n, |prefix|)` characters
      decide (once the length checks have passed). */
  lemma BeginsWithCount(source: string, prefix: string, sensitive: bool, n: int)
    requires n > 0 && 0 < |prefix| <= |source|
    ensures var m := if n < |prefix| then n else |prefix|;
      BeginsWith(source, prefix, sensitive, n) == BeginsWith(source, prefix[..m], sensitive, 0)
  {
  }

  // ---------------------------------------------------------------------
  // get_ordinal
  // ---------------------------------------------------------------------

  /** `get_ordinal(n)`: the English ordinal suffix of `n`. */
  function GetOrdinal(n: nat): (r: string)
    ensures 10 <= n % 100 <= 19 || n % 10 == 0 || n % 10 >= 4 ==> r == "th"
    ensures !(10 <= n % 100 <= 19) && n % 10 == 1 ==> r == "st"
    ensures !(10 <= n % 100 <= 19) && n % 10 == 2 ==> r == "nd"
    ensures !(10 <= n % 100 <= 19) && n % 10 == 3 ==> r == "rd"
  {
    var suffixes := ["th", "st", "nd", "rd"];
    var ord := n % 100;
    var ord := if ord / 10 == 1 then 0 else ord;
    var ord := ord % 10;
    var ord := if ord > 3 then 0 else ord;
    suffixes[ord]
  }
}
