/** What the two line containers (`Interpreter` and `ArgumentHandler`)
    compute, as functions of values: the filtering of words and arguments,
    the arguments built from a line, and the text `substr` rebuilds. */
module Line {
  import opened Wrappers
  import opened Ustr
  import opened Config
  import opened Args

  // -----------------------------------------------------------------------
  // Filtering
  // -----------------------------------------------------------------------

  /** The elements of `s` that `keep` accepts, in their order. */
  function Filter<T>(s: seq<T>, keep: T -> bool): (r: seq<T>)
    ensures |r| <= |s|
    ensures forall i :: 0 <= i < |r| ==> keep(r[i])
    decreases |s|
  {
    if s == [] then []
    else
      var rest := Filter(s[1..], keep);
      if keep(s[0]) then [s[0]] + rest else rest
  }

  /** An element survives exactly when it was there and is accepted. */
  lemma {:induction false} FilterMembers<T>(s: seq<T>, keep: T -> bool, x: T)
    ensures x in Filter(s, keep) <==> x in s && keep(x)
    decreases |s|
  {
    if s != [] {
      FilterMembers(s[1..], keep, x);
      assert s == [s[0]] + s[1..];
    }
  }

  /** Filtering works piece by piece, so the survivors keep their order. */
  lemma {:induction false} FilterAppend<T>(a: seq<T>, b: seq<T>, keep: T -> bool)
    ensures Filter(a + b, keep) == Filter(a, keep) + Filter(b, keep)
    decreases |a|
  {
    if a == [] {
      assert a + b == b;
    } else {
      assert (a + b)[1..] == a[1..] + b;
      FilterAppend(a[1..], b, keep);
    }
  }

  /** When every element is accepted, nothing is removed. */
  lemma {:induction false} FilterAllKept<T>(s: seq<T>, keep: T -> bool)
    requires forall i :: 0 <= i < |s| ==> keep(s[i])
    ensures Filter(s, keep) == s
    decreases |s|
  {
    if s != [] {
      FilterAllKept(s[1..], keep);
    }
  }

  /** Filtering a second time removes nothing more. */
  lemma FilterIdempotent<T>(s: seq<T>, keep: T -> bool)
    ensures Filter(Filter(s, keep), keep) == Filter(s, keep)
  {
    FilterAllKept(Filter(s, keep), keep);
  }

  /** One step of an in-place scan that erases the element at `i` when it
      is rejected: the part already scanned followed by the filtered rest
      stays the same. */
  lemma FilterScanDrop<T>(s: seq<T>, i: nat, keep: T -> bool)
    requires i < |s| && !keep(s[i])
    ensures var s' := s[..i] + s[i + 1..];
            s[..i] + Filter(s[i..], keep) == s'[..i] + Filter(s'[i..], keep)
  {
    var s' := s[..i] + s[i + 1..];
    assert s[i..] == [s[i]] + s[i + 1..];
    assert s'[..i] == s[..i] && s'[i..] == s[i + 1..];
  }

  /** One step of the same scan that keeps the element at `i`. */
  lemma FilterScanKeep<T>(s: seq<T>, i: nat, keep: T -> bool)
    requires i < |s| && keep(s[i])
    ensures s[..i] + Filter(s[i..], keep) == s[..i + 1] + Filter(s[i + 1..], keep)
  {
    assert s[i..] == [s[i]] + s[i + 1..];
    assert s[..i + 1] == s[..i] + [s[i]];
  }

  /** All of `s` when `on` is false, the accepted elements when it is true. */
  function KeepIf<T>(s: seq<T>, on: bool, keep: T -> bool): seq<T> {
    if on then Filter(s, keep) else s
  }

  // -----------------------------------------------------------------------
  // Building the arguments of a line
  // -----------------------------------------------------------------------

  /** One argument per word, in order. */
  function TokensOf(ws: seq<string>): (r: seq<Token>)
    ensures |r| == |ws| && forall i :: 0 <= i < |ws| ==> r[i] == Parsed(ws[i])
  {
    seq(|ws|, i requires 0 <= i < |ws| => Parsed(ws[i]))
  }

  /** The original words of a list of arguments. */
  function Originals(ts: seq<Token>): (r: seq<string>)
    ensures |r| == |ts| && forall i :: 0 <= i < |ts| ==> r[i] == ts[i].original
    decreases |ts|
  {
    if ts == [] then [] else [ts[0].original] + Originals(ts[1..])
  }

  /** Parsing one more word adds its argument at the end. */
  lemma TokensSnoc(ws: seq<string>, w: string)
    ensures TokensOf(ws + [w]) == TokensOf(ws) + [Parsed(w)]
  {
  }

  /** One step of keeping words from a list: the next word is added at the
      end exactly when it is kept. */
  lemma KeepStep<T>(s: seq<T>, i: nat, on: bool, keep: T -> bool)
    requires i < |s|
    ensures KeepIf(s[..i + 1], on, keep) == KeepIf(s[..i], on, keep) + (if !on || keep(s[i]) then [s[i]] else [])
  {
    assert s[..i + 1] == s[..i] + [s[i]];
    FilterAppend(s[..i], [s[i]], keep);
  }

  /** `KeepStep` with the test already decided: `kept` grows by the next
      word exactly when `b` says it is kept. */
  lemma KeepNext<T>(s: seq<T>, i: nat, on: bool, keep: T -> bool, kept: seq<T>, b: bool)
    requires i < |s| && kept == KeepIf(s[..i], on, keep)
    requires b == (!on || keep(s[i]))
    ensures KeepIf(s[..i + 1], on, keep) == if b then kept + [s[i]] else kept
  {
    KeepStep(s, i, on, keep);
  }

  /** The originals of the arguments of a list of words are the words
      again: parsing keeps each word's original text. */
  lemma TokensOfOriginals(ws: seq<string>)
    ensures Originals(TokensOf(ws)) == ws
  {
    forall i | 0 <= i < |ws|
      ensures TokensOf(ws)[i].original == ws[i]
    {
      ParsedShape(ws[i]);
    }
  }

  /** The originals of a suffix are the suffix of the originals. */
  lemma OriginalsSuffix(ts: seq<Token>, k: nat)
    requires k <= |ts|
    ensures Originals(ts[k..]) == Originals(ts)[k..]
  {
  }

  /** The words `must_ignore` lets through, stated by what it means: the
      lower-cased word is not in the ignore list (see `MustIgnore`). */
  predicate NotIgnored(w: string) {
    Lower(w) !in ListOfIgnore
  }

  /** The same filter on arguments: it tests the content. */
  predicate ContentNotIgnored(t: Token) {
    NotIgnored(t.content)
  }

  // -----------------------------------------------------------------------
  // substr
  // -----------------------------------------------------------------------

  /** What `substr` writes after the argument at `i`: a space, except after
      the last argument of the whole list, whatever the end of the range. */
  function Separator(ts: seq<Token>, i: nat): string {
    if i != |ts| - 1 then " " else ""
  }

  /** The text `substr`'s loop has built once it has visited the positions
      from `start` up to `end`. */
  function Substring(ts: seq<Token>, start: nat, end: nat): (r: string)
    requires start <= end <= |ts|
    ensures start < end < |ts| ==> |r| > 0 && r[|r| - 1] == ' '
    decreases end - start
  {
    if end == start then "" else Substring(ts, start, end - 1) + ts[end - 1].original + Separator(ts, end - 1)
  }

  /** The loop of `substr` in both containers, over their `original` and
      `arguments`: the original line when `start` is past the arguments;
      otherwise the originals from `start` up to `end` (the end when none
      is given), each followed by a space unless it is the last argument of
      the list. An `end` past the arguments would read out of bounds, so
      the caller must not give one. */
  method Rebuild(original: string, ts: seq<Token>, start: nat, end: Option<nat>) returns (r: string)
    requires start >= |ts| || end.None? || end.value <= |ts|
    ensures start >= |ts| ==> r == original
    ensures start < |ts| && end.None? ==> r == Substring(ts, start, |ts|)
    ensures start < |ts| && end.Some? ==> r == Substring(ts, start, if end.value < start then start else end.value)
  {
    if start >= |ts| {
      return original;
    }
    var stop := if end.None? then |ts| else end.value;
    r := "";
    var i := start;
    while i < stop
      invariant start <= i && (i <= stop || i == start)
      invariant r == Substring(ts, start, i)
    {
      r := r + ts[i].original;
      if i != |ts| - 1 {
        r := r + " ";
      }
      i := i + 1;
    }
  }

  /** `arguments.at(position)`: checked access. */
  method CheckedAt(ts: seq<Token>, position: nat) returns (r: Checked<Token>)
    ensures position < |ts| ==> r == Ok(ts[position])
    ensures position >= |ts| ==> r == OutOfRange
  {
    if position < |ts| {
      r := Ok(ts[position]);
    } else {
      r := OutOfRange;
    }
  }

  /** The permissive `operator[]` of both containers: the argument at the
      position, or an argument built from the empty string past the end. */
  method ArgumentAt(ts: seq<Token>, position: nat) returns (r: Token)
    ensures position < |ts| ==> r == ts[position]
    ensures position >= |ts| ==> r == Parsed("") && r == Token("", "", 1, 1, NoFlags)
  {
    if position >= |ts| {
      r := NewArgument("");
      EmptyArgument();
      return;
    }
    return ts[position];
  }

  /** The originals of a range, split before its last argument. */
  lemma OriginalsSnoc(ts: seq<Token>, start: nat, end: nat)
    requires start < end <= |ts|
    ensures Originals(ts[start..end]) == Originals(ts[start..end - 1]) + [ts[end - 1].original]
  {
  }

  /** A range that stops before the last argument: its originals joined by
      single spaces, and then one space more. */
  lemma {:induction false} SubstringBeforeLast(ts: seq<Token>, start: nat, end: nat)
    requires start < end < |ts|
    ensures Substring(ts, start, end) == JoinWith(Originals(ts[start..end]), ' ') + " "
    decreases end - start
  {
    OriginalsSnoc(ts, start, end);
    if end - 1 > start {
      SubstringBeforeLast(ts, start, end - 1);
      JoinWithSnoc(Originals(ts[start..end - 1]), ts[end - 1].original, ' ');
    } else {
      assert Originals(ts[start..end - 1]) == [];
    }
  }

  /** The last argument adds its original and no space. */
  lemma SubstringAtEnd(ts: seq<Token>, start: nat)
    requires start < |ts|
    ensures Substring(ts, start, |ts|) == Substring(ts, start, |ts| - 1) + ts[|ts| - 1].original
  {
    assert Separator(ts, |ts| - 1) == "";
  }

  /** The originals from `start` to the end are those up to the last
      argument, then its own. */
  lemma OriginalsAtEnd(ts: seq<Token>, start: nat)
    requires start < |ts|
    ensures Originals(ts[start..]) == Originals(ts[start..|ts| - 1]) + [ts[|ts| - 1].original]
  {
    OriginalsSnoc(ts, start, |ts|);
    assert ts[start..|ts|] == ts[start..];
  }

  /** Appending the last word to the others joined and followed by a space
      joins them all. */
  lemma JoinThenLast(p: seq<string>, w: string, before: string, whole: string)
    requires p != [] && before == JoinWith(p, ' ') + " " && whole == before + w
    ensures whole == JoinWith(p + [w], ' ')
  {
    JoinWithSnoc(p, w, ' ');
    assert " " == [' '];
  }

  /** `substr(k)`: from `k` to the end, the originals joined by single
      spaces, with no space at the end. */
  lemma {:induction false} SubstringToEnd(ts: seq<Token>, start: nat)
    requires start < |ts|
    ensures Substring(ts, start, |ts|) == JoinWith(Originals(ts[start..]), ' ')
  {
    var last := |ts| - 1;
    var w := ts[last].original;
    var p := Originals(ts[start..last]);
    SubstringAtEnd(ts, start);
    OriginalsAtEnd(ts, start);
    if last > start {
      SubstringBeforeLast(ts, start, last);
      JoinThenLast(p, w, Substring(ts, start, last), Substring(ts, start, |ts|));
    } else {
      assert p == [];
      assert p + [w] == [w];
    }
  }

  /** `substr(start, end)` with `end` before the last argument ends in a
      space. */
  lemma SubstringTrailingSpace(ts: seq<Token>, start: nat, end: nat)
    requires start < end < |ts|
    ensures |Substring(ts, start, end)| > 0 && Substring(ts, start, end)[|Substring(ts, start, end)| - 1] == ' '
  {
    SubstringBeforeLast(ts, start, end);
  }

  /** Parsing a well-spaced line such as "say How are you?" and dropping its
      first argument, `substr(0)` gives back the text after the first word:
      "How are you?". */
  lemma SubstringAfterFirstWord(s: string)
    requires WellSpaced(s, ' ') && FindFirstOf(s, " ", 0) < |s|
    ensures var ts := TokensOf(Words(s, " "))[1..];
            |ts| > 0 && Substring(ts, 0, |ts|) == s[FindFirstOf(s, " ", 0) + 1..]
  {
    TokensOfOriginals(Words(s, " "));
    SubstringOfTail(TokensOf(Words(s, " ")), s);
  }

  /** The same, for any list of arguments whose originals are the words of
      the line. */
  lemma SubstringOfTail(all: seq<Token>, s: string)
    requires WellSpaced(s, ' ') && FindFirstOf(s, " ", 0) < |s|
    requires Originals(all) == Words(s, " ")
    ensures var ts := all[1..];
            |ts| > 0 && Substring(ts, 0, |ts|) == s[FindFirstOf(s, " ", 0) + 1..]
  {
    var ts := all[1..];
    TailText(s);
    OriginalsSuffix(all, 1);
    SubstringToEnd(ts, 0);
    assert ts[0..] == ts;
  }

  /** The words after the first of a well-spaced line with a space in it
      join back into the text after that space. */
  lemma TailText(s: string)
    requires WellSpaced(s, ' ') && FindFirstOf(s, " ", 0) < |s|
    ensures var ws := Words(s, " ");
            |ws| > 1 && JoinWith(ws[1..], ' ') == s[FindFirstOf(s, " ", 0) + 1..]
  {
    var ws := Words(s, " ");
    DropFirstWord(s, ' ');
    assert [' '] == " ";
    assert |ws[1..]| > 0 by {
      assert JoinWith(ws[1..], ' ') != [];
    }
  }
}
