/** `interpreter::ArgumentHandler`, the older line container: the same
    arguments, search, reconstruction and erasure as `Interpreter`, with its
    own list of fill words in place of the configured ignore list. */
module Handler {
  import opened Wrappers
  import opened Ustr
  import opened Config
  import opened Args
  import opened Line
  import Interp

  /** The table `isFillWord` scans. Its last entry is the terminator
      `"\0"`, which as a `std::string` is the empty string. */
  const FillWordTable: seq<string> :=
    ["in", "from", "with", "and", "the", "on", "at", "to", "da", "su",
     "a", "e", "il", "la", "lo", "un", "uno", "una", "con", ""]

  /** The number of entries before the terminator. */
  const FillWordCount: nat := 19

  /** The fill words: the entries before the terminator. */
  function FillWords(): (r: seq<string>)
    ensures |r| == FillWordCount && forall i :: 0 <= i < |r| ==> r[i] == FillWordTable[i] && r[i] != ""
  {
    FillWordTable[..FillWordCount]
  }

  /** A fill word: its lower-cased form is one of the fill words. */
  predicate FillWord(w: string) {
    Lower(w) in FillWords()
  }

  /** The words `parse` keeps when it skips fill words. */
  predicate NotFillWord(w: string) {
    !FillWord(w)
  }

  /** The arguments `removeFillWords` keeps: it tests the content. */
  predicate ContentNotFill(t: Token) {
    NotFillWord(t.content)
  }

  /** The words `parse` keeps: all of them, or with `skip` those that are
      not fill words. */
  function KeptWords(input: string, skip: bool): seq<string> {
    KeepIf(Words(input, " "), skip, NotFillWord)
  }

  /** The test `find` applies: equal content when `exact`, otherwise
      `beginWith(content, s)` with its defaults (case-insensitive, `n = -1`). */
  predicate Matches(t: Token, s: string, exact: bool) {
    if exact then t.content == s else BeginsWith(t.content, s, false, -1)
  }

  class ArgumentHandler {
    var original: string
    var arguments: seq<Token>

    /** `ArgumentHandler()`: no line and no arguments. */
    constructor ()
      ensures original == "" && arguments == []
    {
      original := "";
      arguments := [];
    }

    /** `isFillWord(argument)`: scans the table up to its terminator for the
        lower-cased argument. */
    method IsFillWord(argument: string) returns (r: bool)
      ensures r == FillWord(argument)
    {
      var lower := ToLower(argument);
      var i := 0;
      while FillWordTable[i] != ""
        invariant 0 <= i <= FillWordCount
        invariant forall j :: 0 <= j < i ==> lower != FillWordTable[j]
        decreases FillWordCount - i
      {
        if lower == FillWordTable[i] {
          assert FillWords()[i] == lower;
          return true;
        }
        i := i + 1;
      }
      assert i == FillWordCount;
      return false;
    }

    /** The test of `parse`'s loop: a word is kept unless fill words are
        skipped and it is one; `isFillWord` is called only in the second
        case. */
    method Keeps(w: string, skipFillWords: bool) returns (keep: bool)
      ensures keep == (!skipFillWords || NotFillWord(w))
    {
      keep := true;
      if skipFillWords {
        var fill := IsFillWord(w);
        keep := !fill;
      }
    }

    /** `parse(input, skip_fill_words)`: an empty input changes nothing;
        otherwise the line is saved and the arguments rebuilt, one per kept
        word. */
    method Parse(input: string, skipFillWords: bool)
      modifies this
      ensures input == "" ==> original == old(original) && arguments == old(arguments)
      ensures input != "" ==> original == input && arguments == TokensOf(KeptWords(input, skipFillWords))
    {
      if input != "" {
        var words := Split(input, " ");
        var args: seq<Token> := [];
        ghost var kept: seq<string> := [];
        var i := 0;
        while i < |words|
          invariant 0 <= i <= |words|
          invariant kept == KeepIf(words[..i], skipFillWords, NotFillWord)
          invariant args == TokensOf(kept)
        {
          var w := words[i];
          var keep := Keeps(w, skipFillWords);
          KeepNext(words, i, skipFillWords, NotFillWord, kept, keep);
          if keep {
            var t := NewArgument(w);
            TokensSnoc(kept, w);
            args := args + [t];
            kept := kept + [w];
          }
          i := i + 1;
        }
        assert words[..i] == words;
        original := input;
        arguments := args;
      }
    }

    /** `find(s, exact)`: the position of the first matching argument, or
        none (the null pointer). */
    method Find(s: string, exact: bool) returns (r: Option<nat>)
      ensures r.Some? ==> r.value < |arguments| && Matches(arguments[r.value], s, exact)
      ensures r.Some? ==> forall j :: 0 <= j < r.value ==> !Matches(arguments[j], s, exact)
      ensures r.None? <==> forall j :: 0 <= j < |arguments| ==> !Matches(arguments[j], s, exact)
    {
      var i := 0;
      while i < |arguments|
        invariant 0 <= i <= |arguments|
        invariant forall j :: 0 <= j < i ==> !Matches(arguments[j], s, exact)
      {
        if exact {
          if arguments[i].content == s {
            return Some(i);
          }
        } else {
          var b := BeginWith(arguments[i].content, s, false, -1);
          if b {
            return Some(i);
          }
        }
        i := i + 1;
      }
      return None;
    }

    /** `get(position)`: checked access. */
    method Get(position: nat) returns (r: Checked<Token>)
      ensures position < |arguments| ==> r == Ok(arguments[position])
      ensures position >= |arguments| ==> r == OutOfRange
    {
      r := CheckedAt(arguments, position);
    }

    /** `operator[](position)`, both overloads: the argument there, or an
        argument built from the empty string past the end. */
    method At(position: nat) returns (r: Token)
      ensures position < |arguments| ==> r == arguments[position]
      ensures position >= |arguments| ==> r == Parsed("") && r == Token("", "", 1, 1, NoFlags)
    {
      r := ArgumentAt(arguments, position);
    }

    /** `substr(start, end)`: the original line when `start` is past the
        arguments; otherwise the originals from `start` up to `end` (the
        end when none is given), each followed by a space unless it is the
        last argument of the list. An `end` past the arguments would read
        out of bounds, so the caller must not give one. */
    method Substr(start: nat, end: Option<nat>) returns (r: string)
      requires start >= |arguments| || end.None? || end.value <= |arguments|
      ensures start >= |arguments| ==> r == original
      ensures start < |arguments| && end.None? ==> r == Substring(arguments, start, |arguments|)
      ensures start < |arguments| && end.Some? ==>
                r == Substring(arguments, start, if end.value < start then start else end.value)
    {
      r := Rebuild(original, arguments, start, end);
    }

    /** `erase(position)`: removes exactly that argument, shifting the later
        ones down; a position past the end changes nothing. */
    method Erase(position: nat)
      modifies this
      ensures original == old(original)
      ensures position < |old(arguments)| ==> arguments == old(arguments)[..position] + old(arguments)[position + 1..]
      ensures position >= |old(arguments)| ==> arguments == old(arguments)
    {
      if position < |arguments| {
        arguments := arguments[..position] + arguments[position + 1..];
      }
    }

    /** `removeFillWords()`: removes, in place, exactly the arguments whose
        content is a fill word, keeping the others in order. */
    method RemoveFillWords()
      modifies this
      ensures original == old(original)
      ensures arguments == Filter(old(arguments), ContentNotFill)
    {
      var args := arguments;
      var i := 0;
      while i < |args|
        invariant 0 <= i <= |args|
        invariant Filter(old(arguments), ContentNotFill) == args[..i] + Filter(args[i..], ContentNotFill)
        invariant unchanged(this)
      {
        var fill := IsFillWord(args[i].content);
        if fill {
          FilterScanDrop(args, i, ContentNotFill);
          args := args[..i] + args[i + 1..];
        } else {
          FilterScanKeep(args, i, ContentNotFill);
          i := i + 1;
        }
      }
      assert args[i..] == [];
      arguments := args;
    }
  }

  // -----------------------------------------------------------------------
  // Properties
  // -----------------------------------------------------------------------

  /** A word whose lower-cased form is the table entry at `i`, before the
      terminator, is a fill word. */
  lemma FillWordAt(w: string, i: nat)
    requires i < FillWordCount && Lower(w) == FillWordTable[i]
    ensures FillWord(w)
  {
    assert FillWords()[i] == Lower(w);
  }

  /** The terminator is never a member, so the empty word is not a fill
      word; the Italian words are fill words in any case. */
  lemma FillWordExamples()
    ensures !FillWord("")
    ensures FillWord("da") && FillWord("Su") && FillWord("IL") && FillWord("con")
  {
    assert Lower("") == "";
    assert Lower("da") == "da";
    FillWordAt("da", 8);
    assert Lower("Su") == "su";
    FillWordAt("Su", 9);
    assert Lower("IL") == "il";
    FillWordAt("IL", 12);
    assert Lower("con") == "con";
    FillWordAt("con", 18);
  }

  /** With `skip`, exactly the fill words are left out; without it, every
      word is kept. Either way the kept words are in the order of the line. */
  lemma KeptWordsExactly(input: string, skip: bool, w: string)
    ensures w in KeptWords(input, skip) <==> w in Words(input, " ") && (!skip || !FillWord(w))
    ensures !skip ==> KeptWords(input, skip) == Words(input, " ")
    ensures Originals(TokensOf(KeptWords(input, skip))) == KeptWords(input, skip)
  {
    FilterMembers(Words(input, " "), NotFillWord, w);
    TokensOfOriginals(KeptWords(input, skip));
  }

  /** After `removeFillWords` no argument's content is a fill word, so a
      second call removes nothing. */
  lemma RemoveFillWordsTwice(ts: seq<Token>)
    ensures forall i :: 0 <= i < |Filter(ts, ContentNotFill)| ==> !FillWord(Filter(ts, ContentNotFill)[i].content)
    ensures Filter(Filter(ts, ContentNotFill), ContentNotFill) == Filter(ts, ContentNotFill)
  {
    FilterIdempotent(ts, ContentNotFill);
  }

  /** The two revisions search alike: `beginWith(.., false, -1)` and
      `begin_with(.., false, 0)` both compare the whole prefix. */
  lemma FindAgrees(t: Token, s: string, exact: bool)
    ensures Matches(t, s, exact) <==> Interp.Matches(t, s, exact)
    ensures !exact ==> (Matches(t, s, exact) <==> |s| > 0 && Lower(s) <= Lower(t.content))
  {
    BeginsWithFolded(t.content, s, -1);
    BeginsWithFolded(t.content, s, 0);
  }

  /** The fill words and the ignore list differ: "an" is only ignorable, the
      Italian "da" is only a fill word. */
  lemma FillWordsAndIgnoreList()
    ensures MustIgnore("an") && !FillWord("an")
    ensures FillWord("da") && !MustIgnore("da")
  {
    FillWordExamples();
    assert Lower("an") == "an" && Lower("da") == "da";
    assert ListOfIgnore[9] == "an";
    assert forall i :: 0 <= i < |ListOfIgnore| ==> ListOfIgnore[i] != "da";
    assert forall i :: 0 <= i < FillWordCount ==> FillWordTable[i] != "an";
  }
}
