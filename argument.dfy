/** One argument of a command line (`interpreter::Argument`): the word as
    typed, its content with the recognised prefixes stripped, the index and
    quantity those prefixes gave, and the flags saying which were seen. */
module Args {
  import opened Ustr
  import opened Config

  /** The bits of `prefix`: FLAG_ALL, FLAG_QUANTITY and FLAG_INDEX. */
  datatype Flags = Flags(all: bool, quantity: bool, index: bool)

  const NoFlags: Flags := Flags(false, false, false)

  /** The bit of `prefix` each flag sets: `1u << 1u`, `1u << 2u`, `1u << 3u`. */
  const FlagAll: bv8 := 2
  const FlagQuantity: bv8 := 4
  const FlagIndex: bv8 := 8

  /** The integer `prefix` holding the given flags. */
  function Mask(f: Flags): bv8 {
    (if f.all then FlagAll else 0) | (if f.quantity then FlagQuantity else 0) | (if f.index then FlagIndex else 0)
  }

  /** The two prefixes that end in a symbol: `<N>.` and `<N>*`. */
  datatype PrefixKind = IndexPrefix | QuantityPrefix

  /** The symbols that end a prefix of the given kind. */
  function Symbols(kind: PrefixKind): string {
    match kind
    case IndexPrefix => IndexSymbols
    case QuantityPrefix => QuantitySymbols
  }

  /** Every prefix symbol. */
  const SymbolChars: string := QuantitySymbols + IndexSymbols

  /** An entry of the list given to `map_to_option`: an option code and the
      names that select it. */
  datatype OptionEntry = OptionEntry(option: nat, names: seq<string>)

  /** The value an `Argument` holds; a vector of arguments holds copies of
      such values. */
  datatype Token = Token(original: string, content: string, index: nat, quantity: nat, prefix: Flags) {

    /** `has_prefix_all`: the FLAG_ALL bit of `prefix` is set. */
    function HasPrefixAll(): (r: bool)
      ensures r <==> Mask(prefix) & FlagAll == FlagAll
    {
      prefix.all
    }

    /** `has_quantity`: the FLAG_QUANTITY bit of `prefix` is set. */
    function HasQuantity(): (r: bool)
      ensures r <==> Mask(prefix) & FlagQuantity == FlagQuantity
    {
      prefix.quantity
    }

    /** `has_index`: the FLAG_INDEX bit of `prefix` is set. */
    function HasIndex(): (r: bool)
      ensures r <==> Mask(prefix) & FlagIndex == FlagIndex
    {
      prefix.index
    }

    /** `has_only_one_prefix`: counts the raised flags and rejects more
        than one. */
    function HasOnlyOnePrefix(): (r: bool)
      ensures r <==> !(HasPrefixAll() && HasQuantity()) && !(HasPrefixAll() && HasIndex())
                     && !(HasQuantity() && HasIndex())
    {
      (if HasPrefixAll() then 1 else 0) + (if HasQuantity() then 1 else 0) + (if HasIndex() then 1 else 0) <= 1
    }

    /** `means_all`: the whole ORIGINAL word, not the content, means "all". */
    function MeansAll(): (r: bool)
      ensures r <==> Lower(original) == "all"
    {
      Config.MeansAll(original)
    }

    /** `operator==(std::string)`: compares the content only, character by
        character. */
    function Equals(rhs: string): (r: bool)
      ensures r <==> |content| == |rhs| && forall i :: 0 <= i < |rhs| ==> content[i] == rhs[i]
    {
      content == rhs
    }

    /** `is_abbreviation_of(full, sensitive, min_length)`: the content is at
        least `minLength` long and is a prefix of `full`, ignoring ASCII case
        unless `sensitive`. */
    function IsAbbreviationOf(full: string, sensitive: bool, minLength: nat): (r: bool)
      ensures r <==> minLength <= |content| <= |full|
                     && forall i :: 0 <= i < |content| ==> CharMatches(content[i], full[i], sensitive)
    {
      if sensitive then IsAbbrev(full, content, minLength)
      else
        var r := IsAbbrev(Lower(full), Lower(content), minLength);
        assert r ==> forall i :: 0 <= i < |content| ==> Lower(content)[i] == Lower(full)[i];
        r
    }

    /** `map_to_option(options, ...)`: the option of the first entry, in list
        order, whose names the content is among; 0 when there is none.
        `among` is the word-list test the caller selects. */
    function MapToOption(options: seq<OptionEntry>, among: (string, seq<string>) -> bool): (r: nat)
      ensures (forall i :: 0 <= i < |options| ==> !among(content, options[i].names)) ==> r == 0
      ensures forall i :: (0 <= i < |options| && among(content, options[i].names)
                            && forall j :: 0 <= j < i ==> !among(content, options[j].names)) ==> r == options[i].option
      decreases |options|
    {
      if options == [] then 0
      else if among(content, options[0].names) then options[0].option
      else
        var r := MapToOption(options[1..], among);
        assert forall i :: 1 <= i < |options| ==> options[i] == options[1..][i - 1];
        r
    }
  }

  // -----------------------------------------------------------------------
  // The prefix evaluation, as functions of the argument's value
  // -----------------------------------------------------------------------

  /** The value right after construction, before prefixes are evaluated. */
  function Initial(w: string): Token {
    Token(w, w, 1, 1, NoFlags)
  }

  /** Records an accepted number in the field of the given kind. */
  function SetNumber(t: Token, kind: PrefixKind, n: nat): Token {
    match kind
    case IndexPrefix => t.(index := n, prefix := t.prefix.(index := true))
    case QuantityPrefix => t.(quantity := n, prefix := t.prefix.(quantity := true))
  }

  /** `after` is what is left of `before` once a prefix ending in a symbol is
      cut off. */
  predicate StripOf(before: string, after: string) {
    |after| < |before| && after == before[|before| - |after|..]
    && before[|before| - |after| - 1] in SymbolChars
  }

  /** `evaluate_index` / `evaluate_quantity`. */
  function Evaluate(t: Token, kind: PrefixKind): (r: Token)
    ensures r.original == t.original
    ensures r.content == t.content ==> r == t
    ensures r.content != t.content ==> StripOf(t.content, r.content)
  {
    if IsNumber(t.content) then t
    else
      var pos := FindFirstOf(t.content, Symbols(kind), 0);
      if pos == |t.content| then t
      else
        var digits := t.content[..pos];
        var rest := t.content[pos + 1..];
        if IsNumber(digits) then
          var number := ToNumber(digits);
          if number < IntMax then SetNumber(t.(content := rest), kind, number)
          else t.(content := rest)
        else if Config.MeansAll(digits) then t.(content := rest, prefix := t.prefix.(all := true))
        else t
  }

  /** `evaluate_all_prefix`: the kind whose symbol comes first in the content
      is evaluated first; a missing symbol counts as `npos`, so with no index
      symbol the quantity goes first. */
  function EvaluateAll(t: Token): (r: Token)
    ensures r.original == t.original
    ensures StrippedAtMostTwice(t.content, r.content)
    ensures |r.content| <= |t.content| && r.content == t.content[|t.content| - |r.content|..]
  {
    var indexPos := FindFirstOf(t.content, IndexSymbols, 0);
    var quantityPos := FindFirstOf(t.content, QuantitySymbols, 0);
    if indexPos < quantityPos then
      var m := Evaluate(t, IndexPrefix);
      var r := Evaluate(m, QuantityPrefix);
      TwoSteps(t.content, m.content, r.content);
      r
    else
      var m := Evaluate(t, QuantityPrefix);
      var r := Evaluate(m, IndexPrefix);
      TwoSteps(t.content, m.content, r.content);
      r
  }

  /** The value of `Argument(w)`: it keeps `w` as its original and its
      content is `w` with at most two prefixes cut off the front. */
  function Parsed(w: string): (r: Token)
    ensures r.original == w
    ensures StrippedAtMostTwice(w, r.content)
    ensures |r.content| <= |w| && r.content == w[|w| - |r.content|..]
  {
    EvaluateAll(Initial(w))
  }

  // -----------------------------------------------------------------------
  // The class
  // -----------------------------------------------------------------------

  /** `interpreter::Argument`: its fields are set by the constructor and by
      `parse`, then updated step by step by the prefix evaluation. */
  class Argument {
    var original: string
    var content: string
    var index: nat
    var quantity: nat
    var prefix: Flags

    function State(): Token
      reads this
    {
      Token(original, content, index, quantity, prefix)
    }

    constructor (w: string)
      ensures State() == Parsed(w)
    {
      original := w;
      content := w;
      index := 1;
      quantity := 1;
      prefix := NoFlags;
      new;
      EvaluateAllPrefix();
    }

    /** `parse`: resets every field from `w` and evaluates the prefixes. */
    method Parse(w: string)
      modifies this
      ensures State() == Parsed(w)
    {
      original := w;
      content := w;
      index := 1;
      quantity := 1;
      prefix := NoFlags;
      assert State() == Initial(w);
      EvaluateAllPrefix();
    }

    method EvaluateAllPrefix()
      modifies this
      ensures State() == EvaluateAll(old(State()))
    {
      var indexPos := FindFirstOf(content, IndexSymbols, 0);
      var quantityPos := FindFirstOf(content, QuantitySymbols, 0);
      if indexPos < quantityPos {
        EvaluateIndex();
        EvaluateQuantity();
      } else {
        EvaluateQuantity();
        EvaluateIndex();
      }
    }

    method EvaluateIndex()
      modifies this
      ensures State() == Evaluate(old(State()), IndexPrefix)
    {
      if IsNumber(content) {
        return;
      }
      var pos := FindFirstOf(content, IndexSymbols, 0);
      if pos == |content| {
        return;
      }
      var digits := content[..pos];
      ghost var t := State();
      if IsNumber(digits) {
        EvaluateNumber(t, IndexPrefix, pos);
        var number := ToNumber(digits);
        if number < IntMax {
          index := number;
          prefix := prefix.(index := true);
        }
        content := content[pos + 1..];
      } else if Config.MeansAll(digits) {
        EvaluateAllWord(t, IndexPrefix, pos);
        content := content[pos + 1..];
        prefix := prefix.(all := true);
      } else {
        EvaluateOtherPrefix(t, IndexPrefix, pos);
      }
    }

    method EvaluateQuantity()
      modifies this
      ensures State() == Evaluate(old(State()), QuantityPrefix)
    {
      if IsNumber(content) {
        return;
      }
      var pos := FindFirstOf(content, QuantitySymbols, 0);
      if pos == |content| {
        return;
      }
      var digits := content[..pos];
      ghost var t := State();
      if IsNumber(digits) {
        EvaluateNumber(t, QuantityPrefix, pos);
        var number := ToNumber(digits);
        if number < IntMax {
          quantity := number;
          prefix := prefix.(quantity := true);
        }
        content := content[pos + 1..];
      } else if Config.MeansAll(digits) {
        EvaluateAllWord(t, QuantityPrefix, pos);
        content := content[pos + 1..];
        prefix := prefix.(all := true);
      } else {
        EvaluateOtherPrefix(t, QuantityPrefix, pos);
      }
    }
  }

  /** The temporary `Argument(w)` whose value a container copies into its
      vector. */
  method NewArgument(w: string) returns (t: Token)
    ensures t == Parsed(w)
  {
    var a := new Argument(w);
    t := a.State();
  }

  // -----------------------------------------------------------------------
  // Properties of the prefix evaluation
  // -----------------------------------------------------------------------

  /** The other numeric prefix. */
  function Other(kind: PrefixKind): PrefixKind {
    match kind
    case IndexPrefix => QuantityPrefix
    case QuantityPrefix => IndexPrefix
  }

  /** What one evaluation step from `t` to `r` may change: it only raises
      flags, and only while stripping; it sets only the field of its own
      kind, and only to a value below `INT_MAX` together with that field's
      flag. */
  predicate FieldsStep(t: Token, r: Token, kind: PrefixKind) {
    (t.prefix.all ==> r.prefix.all) && (t.prefix.quantity ==> r.prefix.quantity)
    && (t.prefix.index ==> r.prefix.index)
    && (r.prefix != t.prefix ==> r.content != t.content)
    && (kind == IndexPrefix ==> r.quantity == t.quantity && r.prefix.quantity == t.prefix.quantity)
    && (kind == QuantityPrefix ==> r.index == t.index && r.prefix.index == t.prefix.index)
    && (r.index != t.index || (r.prefix.index && !t.prefix.index) ==> r.prefix.index && r.index < IntMax)
    && (r.quantity != t.quantity || (r.prefix.quantity && !t.prefix.quantity) ==>
          r.prefix.quantity && r.quantity < IntMax)
  }

  /** Every evaluation step is such a step. */
  lemma EvaluateFields(t: Token, kind: PrefixKind)
    ensures FieldsStep(t, Evaluate(t, kind), kind)
  {
    if !IsNumber(t.content) {
      var pos := FindFirstOf(t.content, Symbols(kind), 0);
      if pos < |t.content| && IsNumber(t.content[..pos]) {
        var cut := t.(content := t.content[pos + 1..]);
        assert FieldsStep(t, cut, kind);
      }
    }
  }

  /** Stripping at most twice: the content is the word itself, or what is
      left after one or two prefixes ending in a symbol are cut off. */
  ghost predicate StrippedAtMostTwice(w: string, c: string) {
    c == w || StripOf(w, c) || exists m :: StripOf(w, m) && StripOf(m, c)
  }

  /** Two steps that each strip a prefix or keep the content leave a suffix
      stripped at most twice. */
  lemma TwoSteps(w: string, c1: string, c2: string)
    requires c1 == w || StripOf(w, c1)
    requires c2 == c1 || StripOf(c1, c2)
    ensures StrippedAtMostTwice(w, c2)
    ensures c2 == w[|w| - |c2|..]
  {
    if c1 != w && c2 != c1 {
      assert c2 == c1[|c1| - |c2|..];
      assert c1[|c1| - |c2|..] == w[|w| - |c1|..][|c1| - |c2|..];
    }
  }

  /** `Argument(w)` keeps `w` as its original, leaves as content a suffix of
      `w` reached by at most two strips, raises a flag only when it strips,
      leaves index and quantity at 1 unless their flag is raised, and then
      holds values below `INT_MAX`. */
  lemma ParsedShape(w: string)
    ensures Parsed(w).original == w
    ensures StrippedAtMostTwice(w, Parsed(w).content)
    ensures Parsed(w).content == w[|w| - |Parsed(w).content|..]
    ensures Parsed(w).prefix != NoFlags ==> |Parsed(w).content| < |w|
    ensures !Parsed(w).HasIndex() ==> Parsed(w).index == 1
    ensures Parsed(w).HasIndex() ==> Parsed(w).index < IntMax
    ensures !Parsed(w).HasQuantity() ==> Parsed(w).quantity == 1
    ensures Parsed(w).HasQuantity() ==> Parsed(w).quantity < IntMax
  {
    var first := if FindFirstOf(w, IndexSymbols, 0) < FindFirstOf(w, QuantitySymbols, 0)
                 then IndexPrefix else QuantityPrefix;
    assert Parsed(w) == Evaluate(Evaluate(Initial(w), first), Other(first));
    StepsShape(w, first);
  }

  /** The same for the two steps in either order. */
  lemma StepsShape(w: string, first: PrefixKind)
    ensures var r := Evaluate(Evaluate(Initial(w), first), Other(first));
            r.original == w && StrippedAtMostTwice(w, r.content) && r.content == w[|w| - |r.content|..]
            && (r.prefix != NoFlags ==> |r.content| < |w|)
            && (!r.HasIndex() ==> r.index == 1) && (r.HasIndex() ==> r.index < IntMax)
            && (!r.HasQuantity() ==> r.quantity == 1) && (r.HasQuantity() ==> r.quantity < IntMax)
  {
    var t0 := Initial(w);
    var t1 := Evaluate(t0, first);
    var t2 := Evaluate(t1, Other(first));
    EvaluateFields(t0, first);
    EvaluateFields(t1, Other(first));
    FieldsShape(w, first, t1, t2);
  }

  /** What two steps allowed by `EvaluateFields` leave of the initial value. */
  lemma FieldsShape(w: string, first: PrefixKind, t1: Token, t2: Token)
    requires t1.original == w && (t1.content == w || StripOf(w, t1.content))
    requires t2.original == w && (t2.content == t1.content || StripOf(t1.content, t2.content))
    requires FieldsStep(Initial(w), t1, first) && FieldsStep(t1, t2, Other(first))
    ensures t2.original == w && StrippedAtMostTwice(w, t2.content) && t2.content == w[|w| - |t2.content|..]
    ensures t2.prefix != NoFlags ==> |t2.content| < |w|
    ensures (!t2.HasIndex() ==> t2.index == 1) && (t2.HasIndex() ==> t2.index < IntMax)
    ensures (!t2.HasQuantity() ==> t2.quantity == 1) && (t2.HasQuantity() ==> t2.quantity < IntMax)
  {
    TwoSteps(w, t1.content, t2.content);
    if t2.prefix != NoFlags {
      assert |t2.content| <= |t1.content| <= |w|;
    }
  }

  /** An evaluation step whose symbol does not occur leaves the value
      unchanged. */
  lemma NoSymbolUnchanged(t: Token, kind: PrefixKind)
    requires forall j :: 0 <= j < |t.content| ==> t.content[j] !in Symbols(kind)
    ensures Evaluate(t, kind) == t
  {
  }

  /** A word made only of number characters is left whole: "42" stays the
      content "42" with no prefix. */
  lemma NumberWordUntouched(w: string)
    requires IsNumber(w)
    ensures Parsed(w) == Initial(w)
  {
  }

  /** A step whose symbol stands at `pos`, after a number, cuts the number
      off and keeps it when it is below `INT_MAX`. */
  lemma EvaluateNumber(t: Token, kind: PrefixKind, pos: nat)
    requires !IsNumber(t.content)
    requires pos == FindFirstOf(t.content, Symbols(kind), 0) < |t.content|
    requires IsNumber(t.content[..pos])
    ensures var n := ToNumber(t.content[..pos]);
            var cut := t.(content := t.content[pos + 1..]);
            Evaluate(t, kind) == if n < IntMax then SetNumber(cut, kind, n) else cut
  {
  }

  /** A step whose symbol stands at `pos`, after a word meaning "all",
      cuts the word off and raises the ALL flag. */
  lemma EvaluateAllWord(t: Token, kind: PrefixKind, pos: nat)
    requires !IsNumber(t.content)
    requires pos == FindFirstOf(t.content, Symbols(kind), 0) < |t.content|
    requires Config.MeansAll(t.content[..pos])
    ensures Evaluate(t, kind) == t.(content := t.content[pos + 1..], prefix := t.prefix.(all := true))
  {
    MeansAllIsNotNumber(t.content[..pos]);
  }

  /** The evaluation order when the symbol of `kind` comes first. */
  lemma EvaluateAllFirst(t: Token, kind: PrefixKind)
    requires FindFirstOf(t.content, Symbols(kind), 0) < FindFirstOf(t.content, Symbols(Other(kind)), 0)
    ensures EvaluateAll(t) == Evaluate(Evaluate(t, kind), Other(kind))
  {
  }

  /** A word whose first symbol, of the given kind, stands at `k`. */
  lemma FirstSymbolAt(w: string, kind: PrefixKind, k: nat)
    requires k < |w| && w[k] in Symbols(kind)
    requires forall j :: 0 <= j < k ==> w[j] !in SymbolChars
    ensures FindFirstOf(w, Symbols(kind), 0) == k
    ensures FindFirstOf(w, Symbols(Other(kind)), 0) > k
    ensures !IsNumber(w)
  {
    FindFirstOfSkips(w, Symbols(kind), 0);
  }

  /** Splitting `a + sym + rest` around its symbol. */
  lemma AroundSymbol(a: string, sym: string, rest: string)
    requires |sym| == 1
    ensures var w := a + sym + rest;
            |a| < |w| && w[..|a|] == a && w[|a|] == sym[0] && w[|a| + 1..] == rest
            && forall j :: 0 <= j < |a| ==> w[j] == a[j]
  {
    var w := a + sym + rest;
    assert w[..|a|] == a;
    assert w[|a| + 1..] == rest;
  }

  /** A number holds no prefix symbol. */
  lemma NumberHasNoSymbol(n: string)
    requires IsNumber(n)
    ensures forall j :: 0 <= j < |n| ==> n[j] !in SymbolChars
  {
  }

  /** A step on `n + sym + rest`, with `n` a number and `sym` the step's
      symbol, cuts `n` off and records it when below `INT_MAX`. */
  lemma EvaluateNumberPrefix(t: Token, kind: PrefixKind, n: string, rest: string)
    requires IsNumber(n) && t.content == n + Symbols(kind) + rest
    ensures var cut := t.(content := rest);
            Evaluate(t, kind) == if ToNumber(n) < IntMax then SetNumber(cut, kind, ToNumber(n)) else cut
  {
    AroundSymbol(n, Symbols(kind), rest);
    NumberHasNoSymbol(n);
    FirstSymbolAt(t.content, kind, |n|);
    EvaluateNumber(t, kind, |n|);
  }

  /** `<N>*rest` and `<N>.rest`: the part whose symbol comes first is read
      first (a number holds no symbol), its value kept when below `INT_MAX`
      with its flag, and the other kind is then evaluated on `rest`. */
  lemma {:induction false} NumberThenSymbol(n: string, kind: PrefixKind, rest: string)
    requires IsNumber(n)
    ensures var w := n + Symbols(kind) + rest;
            var ok := ToNumber(n) < IntMax;
            var t := Token(w, rest, 1, 1, Flags(false, false, false));
            Parsed(w) == Evaluate(if ok then SetNumber(t, kind, ToNumber(n)) else t, Other(kind))
  {
    var w := n + Symbols(kind) + rest;
    AroundSymbol(n, Symbols(kind), rest);
    NumberHasNoSymbol(n);
    FirstSymbolAt(w, kind, |n|);
    EvaluateAllFirst(Initial(w), kind);
    EvaluateNumberPrefix(Initial(w), kind, n, rest);
  }

  /** A step whose symbol follows something that is neither a number nor
      "all" leaves the value unchanged. */
  lemma EvaluateOtherPrefix(t: Token, kind: PrefixKind, pos: nat)
    requires pos == FindFirstOf(t.content, Symbols(kind), 0) < |t.content|
    requires !IsNumber(t.content[..pos]) && !Config.MeansAll(t.content[..pos])
    ensures Evaluate(t, kind) == t
  {
  }

  /** The characters of a word meaning "all" are letters. */
  lemma AllLetters(a: string)
    requires Config.MeansAll(a)
    ensures |a| == 3 && forall j :: 0 <= j < |a| ==> a[j] !in SymbolChars
  {
    assert forall j :: 0 <= j < |a| ==> LowerChar(a[j]) == Lower(a)[j];
    assert forall j :: 0 <= j < |a| ==> LowerChar(a[j]) in "al";
  }

  /** `all.rest` and `all*rest`: the ALL flag is raised, the prefix is cut
      off, and the other kind is evaluated on `rest`. */
  lemma {:induction false} AllThenSymbol(a: string, kind: PrefixKind, rest: string)
    requires Config.MeansAll(a)
    ensures var w := a + Symbols(kind) + rest;
            Parsed(w) == Evaluate(Token(w, rest, 1, 1, Flags(true, false, false)), Other(kind))
  {
    var w := a + Symbols(kind) + rest;
    AroundSymbol(a, Symbols(kind), rest);
    AllLetters(a);
    FirstSymbolAt(w, kind, |a|);
    EvaluateAllFirst(Initial(w), kind);
    EvaluateAllWord(Initial(w), kind, |a|);
  }

  /** The sentinel argument `Argument("")` holds the defaults. */
  lemma EmptyArgument()
    ensures Parsed("") == Token("", "", 1, 1, NoFlags)
  {
  }

  /** `<N>*word` ("2*box") and `<N>.word`: a single numeric prefix before
      a word without symbols gives that word as content and records the
      number, with its flag, when below `INT_MAX`. */
  lemma {:induction false} SingleNumberPrefix(n: string, kind: PrefixKind, word: string)
    requires IsNumber(n)
    requires forall j :: 0 <= j < |word| ==> word[j] !in SymbolChars
    ensures var w := n + Symbols(kind) + word;
            var t := Token(w, word, 1, 1, NoFlags);
            Parsed(w) == if ToNumber(n) < IntMax then SetNumber(t, kind, ToNumber(n)) else t
  {
    var w := n + Symbols(kind) + word;
    var t := Token(w, word, 1, 1, NoFlags);
    var t1 := if ToNumber(n) < IntMax then SetNumber(t, kind, ToNumber(n)) else t;
    NumberThenSymbol(n, kind, word);
    NoSymbolUnchanged(t1, Other(kind));
  }

  /** Both prefixes, in either order: `<N>*<M>.rest` and `<M>.<N>*rest`
      ("2*3.pen" and "3.2*pen") leave the content `rest`, with quantity N
      and index M each recorded when below `INT_MAX`. */
  lemma {:induction false} TwoNumberPrefixes(n: string, kind: PrefixKind, m: string, rest: string)
    requires IsNumber(n) && IsNumber(m)
    ensures var w := n + Symbols(kind) + m + Symbols(Other(kind)) + rest;
            var t := Token(w, rest, 1, 1, NoFlags);
            var t1 := if ToNumber(n) < IntMax then SetNumber(t, kind, ToNumber(n)) else t;
            Parsed(w) == if ToNumber(m) < IntMax then SetNumber(t1, Other(kind), ToNumber(m)) else t1
  {
    var tail := m + Symbols(Other(kind)) + rest;
    var w := n + Symbols(kind) + tail;
    assert w == n + Symbols(kind) + m + Symbols(Other(kind)) + rest;
    var t := Token(w, tail, 1, 1, NoFlags);
    var t1 := if ToNumber(n) < IntMax then SetNumber(t, kind, ToNumber(n)) else t;
    NumberThenSymbol(n, kind, tail);
    EvaluateNumberPrefix(t1, Other(kind), m, rest);
  }

  /** Which prefix comes first makes no difference to the result, apart
      from the original word. */
  lemma PrefixOrderIrrelevant(n: string, m: string, rest: string)
    requires IsNumber(n) && IsNumber(m)
    ensures var a := Parsed(n + QuantitySymbols + m + IndexSymbols + rest);
            var b := Parsed(m + IndexSymbols + n + QuantitySymbols + rest);
            a.content == b.content == rest && a.index == b.index && a.quantity == b.quantity
            && a.prefix == b.prefix
  {
    TwoNumberPrefixes(n, QuantityPrefix, m, rest);
    TwoNumberPrefixes(m, IndexPrefix, n, rest);
  }

  /** `all.word` ("all.coin"): the ALL flag is raised and the prefix cut
      off, yet the argument does not mean "all", which is a test of the
      whole original word. */
  lemma {:induction false} AllPrefixIsNotAll(a: string, kind: PrefixKind, word: string)
    requires Config.MeansAll(a)
    requires forall j :: 0 <= j < |word| ==> word[j] !in SymbolChars
    ensures var w := a + Symbols(kind) + word;
            Parsed(w) == Token(w, word, 1, 1, Flags(true, false, false)) && !Parsed(w).MeansAll()
  {
    var w := a + Symbols(kind) + word;
    AllThenSymbol(a, kind, word);
    NoSymbolUnchanged(Token(w, word, 1, 1, Flags(true, false, false)), Other(kind));
    AllLetters(a);
    assert |Lower(w)| != 3;
  }

  /** `-<digits>*rest`: a negative number wraps around to a value far above
      `INT_MAX`; it is cut off without being recorded. */
  lemma {:induction false} NegativePrefixDropped(ds: string, kind: PrefixKind, rest: string)
    requires AllDigits(ds) && DecimalValue(ds) > 0
    ensures var w := "-" + ds + Symbols(kind) + rest;
            Parsed(w) == Evaluate(Token(w, rest, 1, 1, NoFlags), Other(kind))
  {
    var n := "-" + ds;
    assert forall j :: 1 <= j < |n| ==> n[j] == ds[j - 1];
    assert IsNumber(n);
    NegativeToNumberRejected(ds);
    NumberThenSymbol(n, kind, rest);
  }

  /** A prefix that is neither a number nor "all" ("x*pen", "*pen") is not
      a prefix: when nothing after it holds a symbol, the argument is the
      word unchanged. */
  lemma {:induction false} OtherPrefixKept(p: string, kind: PrefixKind, word: string)
    requires !IsNumber(p) && !Config.MeansAll(p)
    requires forall j :: 0 <= j < |p| ==> p[j] !in SymbolChars
    requires forall j :: 0 <= j < |word| ==> word[j] !in SymbolChars
    ensures Parsed(p + Symbols(kind) + word) == Initial(p + Symbols(kind) + word)
  {
    var w := p + Symbols(kind) + word;
    var t := Initial(w);
    AroundSymbol(p, Symbols(kind), word);
    FirstSymbolAt(w, kind, |p|);
    EvaluateAllFirst(t, kind);
    EvaluateOtherPrefix(t, kind, |p|);
    OnlyOneSymbol(p, kind, word);
    NoSymbolUnchanged(t, Other(kind));
  }

  /** `p + sym + word` holds no symbol of the other kind when neither `p`
      nor `word` holds a symbol. */
  lemma OnlyOneSymbol(p: string, kind: PrefixKind, word: string)
    requires forall j :: 0 <= j < |p| ==> p[j] !in SymbolChars
    requires forall j :: 0 <= j < |word| ==> word[j] !in SymbolChars
    ensures forall j :: 0 <= j < |p + Symbols(kind) + word| ==> (p + Symbols(kind) + word)[j] !in Symbols(Other(kind))
  {
    var w := p + Symbols(kind) + word;
    forall j | 0 <= j < |w|
      ensures w[j] !in Symbols(Other(kind))
    {
      if j < |p| {
        assert w[j] == p[j];
      } else if j > |p| {
        assert w[j] == word[j - |p| - 1];
      }
    }
  }

  // -----------------------------------------------------------------------
  // The words of the repository's tests
  // -----------------------------------------------------------------------

  /** A one-digit number converts to its digit's value. */
  lemma OneDigit(n: string)
    requires |n| == 1 && IsDigit(n[0])
    ensures IsNumber(n) && ToNumber(n) == DigitValue(n[0])
  {
    assert n[..0] == [];
    assert DecimalValue(n) == DigitValue(n[0]);
    ToNumberOfDigits(n);
  }

  /** "2*box" (the test of `look` with a quantity) asks for two boxes. */
  lemma QuantityWord()
    ensures Parsed("2*box") == Token("2*box", "box", 1, 2, Flags(false, true, false))
  {
    OneDigit("2");
    assert "2" + QuantitySymbols + "box" == "2*box";
    SingleNumberPrefix("2", QuantityPrefix, "box");
  }

  /** "2.pen" (the test of `take` with an index) names the second pen. */
  lemma IndexWord()
    ensures Parsed("2.pen") == Token("2.pen", "pen", 2, 1, Flags(false, false, true))
  {
    OneDigit("2");
    assert "2" + IndexSymbols + "pen" == "2.pen";
    SingleNumberPrefix("2", IndexPrefix, "pen");
  }

  /** "42" is a number as a whole and keeps no prefix. */
  lemma NumberWord()
    ensures Parsed("42") == Token("42", "42", 1, 1, NoFlags)
  {
    assert IsNumber("42");
    NumberWordUntouched("42");
  }
}
