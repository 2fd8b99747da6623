/** `interpreter::Interpreter`: a command line split into arguments, with
    access by position, search, reconstruction of the text and in-place
    removal of arguments. */
module Interp {
  import opened Wrappers
  import opened Ustr
  import opened Config
  import opened Args
  import opened Line

  /** The words `parse` keeps: all of them, or with `ignore` those that
      are not ignorable. */
  function KeptWords(input: string, ignore: bool): seq<string> {
    KeepIf(Words(input, " "), ignore, NotIgnored)
  }

  /** A call of `must_ignore`, seen through its contract. */
  method Ignorable(w: string) returns (b: bool)
    ensures b == !NotIgnored(w)
  {
    b := MustIgnore(w);
  }

  /** The test `find` applies to an argument: equal content when `exact`,
      otherwise `begin_with(content, s, false, 0)`. */
  predicate Matches(t: Token, s: string, exact: bool) {
    if exact then t.content == s else BeginsWith(t.content, s, false, 0)
  }

  class Interpreter {
    var original: string
    var arguments: seq<Token>

    /** `Interpreter(input, ignore)`: empty, then parsed when `input` is
        not null. */
    constructor (input: Option<string>, ignore: bool)
      ensures input.None? ==> original == "" && arguments == []
      ensures input.Some? ==> original == input.value && arguments == TokensOf(KeptWords(input.value, ignore))
    {
      original := "";
      arguments := [];
      new;
      if input.Some? {
        Parse(input, ignore);
      }
    }

    /** `parse(input, ignore)`: a null input changes nothing; otherwise the
        line is saved and the arguments rebuilt, one per kept word. */
    method Parse(input: Option<string>, ignore: bool)
      modifies this
      ensures input.None? ==> original == old(original) && arguments == old(arguments)
      ensures input.Some? ==> original == input.value && arguments == TokensOf(KeptWords(input.value, ignore))
    {
      if input.Some? {
        var words := Split(input.value, " ");
        var args: seq<Token> := [];
        ghost var kept: seq<string> := [];
        var i := 0;
        while i < |words|
          invariant 0 <= i <= |words|
          invariant kept == KeepIf(words[..i], ignore, NotIgnored)
          invariant args == TokensOf(kept)
        {
          var w := words[i];
          KeepStep(words, i, ignore, NotIgnored);
          var ignorable := Ignorable(w);
          if !ignore || !ignorable {
            var t := NewArgument(w);
            TokensSnoc(kept, w);
            args := args + [t];
            kept := kept + [w];
          }
          i := i + 1;
        }
        assert words[..i] == words;
        original := input.value;
        arguments := args;
      }
    }

    /** `find(s, exact)`: the position of the first matching argument, or
        none (the null pointer). */
    method Find(s: string, exact: bool) returns (r: Option<nat>)
      ensures r.Some? ==> r.value < |arguments| && Matches(arguments[r.value], s, exact)
      ensures r.Some? ==> forall j :: 0 <= j < r.value ==> !Matches(arguments[j], s, exact)
      ensures r.None? <==> forall j :: 0 <= j < |arguments| ==> !Matches(arguments[j], s, exact)
    {
      var i := 0;
      while i < |arguments|
        invariant 0 <= i <= |arguments|
        invariant forall j :: 0 <= j < i ==> !Matches(arguments[j], s, exact)
      {
        if exact {
          if arguments[i].content == s {
            return Some(i);
          }
        } else {
          var b := BeginWith(arguments[i].content, s, false, 0);
          if b {
            return Some(i);
          }
        }
        i := i + 1;
      }
      return None;
    }

    /** `substr(start, end)`: the original line when `start` is past the
        arguments; otherwise the originals from `start` up to `end` (the
        end when none is given), each followed by a space unless it is the
        last argument of the list. An `end` past the arguments would read
        out of bounds, so the caller must not give one. */
    method Substr(start: nat, end: Option<nat>) returns (r: string)
      requires start >= |arguments| || end.None? || end.value <= |arguments|
      ensures start >= |arguments| ==> r == original
      ensures start < |arguments| && end.None? ==> r == Substring(arguments, start, |arguments|)
      ensures start < |arguments| && end.Some? ==>
                r == Substring(arguments, start, if end.value < start then start else end.value)
    {
      r := Rebuild(original, arguments, start, end);
    }

    /** `erase(position)`: removes exactly that argument, shifting the later
        ones down; a position past the end changes nothing. */
    method Erase(position: nat)
      modifies this
      ensures original == old(original)
      ensures position < |old(arguments)| ==> arguments == old(arguments)[..position] + old(arguments)[position + 1..]
      ensures position >= |old(arguments)| ==> arguments == old(arguments)
    {
      if position < |arguments| {
        arguments := arguments[..position] + arguments[position + 1..];
      }
    }

    /** `remove_ignored_words()`: removes, in place, exactly the arguments
        whose content is ignorable, keeping the others in order. */
    method RemoveIgnoredWords()
      modifies this
      ensures original == old(original)
      ensures arguments == Filter(old(arguments), ContentNotIgnored)
    {
      var args := arguments;
      var i := 0;
      while i < |args|
        invariant 0 <= i <= |args|
        invariant Filter(old(arguments), ContentNotIgnored) == args[..i] + Filter(args[i..], ContentNotIgnored)
        invariant unchanged(this)
      {
        if MustIgnore(args[i].content) {
          FilterScanDrop(args, i, ContentNotIgnored);
          args := args[..i] + args[i + 1..];
        } else {
          FilterScanKeep(args, i, ContentNotIgnored);
          i := i + 1;
        }
      }
      assert args[i..] == [];
      arguments := args;
    }

    /** `get(position)`: checked access. */
    method Get(position: nat) returns (r: Checked<Token>)
      ensures position < |arguments| ==> r == Ok(arguments[position])
      ensures position >= |arguments| ==> r == OutOfRange
    {
      r := CheckedAt(arguments, position);
    }

    /** `operator[](position)`: the argument there, or an argument built
        from the empty string when the position is past the end. */
    method At(position: nat) returns (r: Token)
      ensures position < |arguments| ==> r == arguments[position]
      ensures position >= |arguments| ==> r == Parsed("") && r == Token("", "", 1, 1, NoFlags)
    {
      r := ArgumentAt(arguments, position);
    }
  }

  // -----------------------------------------------------------------------
  // Properties of the line as parsed
  // -----------------------------------------------------------------------

  /** An empty line gives no arguments, with or without `ignore`. */
  lemma ParseEmptyLine(ignore: bool)
    ensures KeptWords("", ignore) == [] && TokensOf(KeptWords("", ignore)) == []
  {
    assert Words("", " ") == [];
  }

  /** With `ignore`, exactly the ignorable words are left out; without it,
      every word is kept. Either way the kept words are in the order of the
      line, and each argument is the parse of its word. */
  lemma KeptWordsExactly(input: string, ignore: bool, w: string)
    ensures w in KeptWords(input, ignore) <==> w in Words(input, " ") && (!ignore || !MustIgnore(w))
    ensures !ignore ==> KeptWords(input, ignore) == Words(input, " ")
    ensures Originals(TokensOf(KeptWords(input, ignore))) == KeptWords(input, ignore)
  {
    FilterMembers(Words(input, " "), NotIgnored, w);
    TokensOfOriginals(KeptWords(input, ignore));
  }

  /** After `remove_ignored_words` no argument's content is ignorable, so a
      second call removes nothing. */
  lemma RemoveIgnoredTwice(ts: seq<Token>)
    ensures forall i :: 0 <= i < |Filter(ts, ContentNotIgnored)| ==> !MustIgnore(Filter(ts, ContentNotIgnored)[i].content)
    ensures Filter(Filter(ts, ContentNotIgnored), ContentNotIgnored) == Filter(ts, ContentNotIgnored)
  {
    FilterIdempotent(ts, ContentNotIgnored);
  }

  /** Ignoring while parsing tests each word, while `remove_ignored_words`
      tests what is left once the prefix is stripped: "2*the" survives the
      first and not the second. */
  lemma IgnoreTestsWordNotContent(n: string, rest: string)
    requires IsNumber(n) && MustIgnore(rest)
    requires forall j :: 0 <= j < |rest| ==> rest[j] !in SymbolChars
    ensures !MustIgnore(n + QuantitySymbols + rest)
    ensures Parsed(n + QuantitySymbols + rest).content == rest
  {
    var w := n + QuantitySymbols + rest;
    assert w[|n|] == '*';
    SymbolWordNotIgnored(w, |n|);
    SingleNumberPrefix(n, QuantityPrefix, rest);
  }

  /** No ignorable word holds a '*'. */
  lemma SymbolWordNotIgnored(w: string, k: nat)
    requires k < |w| && w[k] == '*'
    ensures !MustIgnore(w)
  {
    assert Lower(w)[k] == '*';
    forall x | x in ListOfIgnore
      ensures forall j :: 0 <= j < |x| ==> x[j] != '*'
    {
    }
  }
}
