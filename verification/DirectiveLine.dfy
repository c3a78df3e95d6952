/** What the directive splitter of `sbatch.rs` makes of any line: words of bare, single-quoted
    and double-quoted pieces, separated by blanks and tabs. */
module DirectiveLine {
  import opened Submitline

  predicate IsBlank(c: char) {
    c == ' ' || c == '\t'
  }

  datatype Piece = Bare(text: string) | Single(text: string) | Double(text: string) {
    predicate Valid() {
      match this
      case Bare(text) => forall k :: 0 <= k < |text| ==> text[k] != '\'' && text[k] != '"' && !IsBlank(text[k])
      case Single(text) => '\'' !in text
      case Double(text) => '"' !in text
    }

    /** The piece as written. */
    function Written(): string {
      match this
      case Bare(text) => text
      case Single(text) => ['\''] + text + ['\'']
      case Double(text) => ['"'] + text + ['"']
    }
  }

  type Word = seq<Piece>

  predicate ValidWord(word: Word) {
    forall k :: 0 <= k < |word| ==> word[k].Valid()
  }

  function Written(word: Word): string {
    if word == [] then "" else word[0].Written() + Written(word[1..])
  }

  /** The word with its quotes removed. */
  function Value(word: Word): string {
    if word == [] then "" else word[0].text + Value(word[1..])
  }

  /** A word and the blanks after it. */
  datatype Item = Item(word: Word, gap: string)

  predicate IsGap(gap: string) {
    forall k :: 0 <= k < |gap| ==> IsBlank(gap[k])
  }

  /** Only the last word may have no blanks after it. */
  predicate ValidLine(items: seq<Item>) {
    && (forall k :: 0 <= k < |items| ==> ValidWord(items[k].word) && IsGap(items[k].gap))
    && (forall k :: 0 <= k < |items| - 1 ==> items[k].gap != "")
  }

  function LineText(items: seq<Item>): string {
    if items == [] then "" else Written(items[0].word) + (items[0].gap + LineText(items[1..]))
  }

  /** The values of the words, those that come to nothing left out. */
  function Values(items: seq<Item>): seq<string> {
    if items == [] then [] else Kept(items[0].word) + Values(items[1..])
  }

  function Kept(word: Word): seq<string> {
    if Value(word) == "" then [] else [Value(word)]
  }

  // ----- reading one piece, word and gap

  function Open(words: seq<string>, current: string): Splitter {
    Splitter(words, current, false, false)
  }

  lemma {:induction false} ReadsBare(words: seq<string>, current: string, s: string)
    requires Bare(s).Valid()
    ensures SplitRun(Open(words, current), s) == Open(words, current + s)
    decreases |s|
  {
    if s == [] {
      assert current + s == current;
    } else {
      assert SplitStep(Open(words, current), s[0]) == Open(words, current + [s[0]]);
      ReadsBare(words, current + [s[0]], s[1..]);
      assert current + [s[0]] + s[1..] == current + s;
    }
  }

  lemma {:induction false} ReadsInSingle(words: seq<string>, current: string, s: string)
    requires '\'' !in s
    ensures SplitRun(Splitter(words, current, true, false), s) == Splitter(words, current + s, true, false)
    decreases |s|
  {
    if s == [] {
      assert current + s == current;
    } else {
      ReadsInSingle(words, current + [s[0]], s[1..]);
      assert current + [s[0]] + s[1..] == current + s;
    }
  }

  lemma {:induction false} ReadsInDouble(words: seq<string>, current: string, s: string)
    requires '"' !in s
    ensures SplitRun(Splitter(words, current, false, true), s) == Splitter(words, current + s, false, true)
    decreases |s|
  {
    if s == [] {
      assert current + s == current;
    } else {
      ReadsInDouble(words, current + [s[0]], s[1..]);
      assert current + [s[0]] + s[1..] == current + s;
    }
  }

  /** A character that opens a quote, the quoted text, and the same character. */
  lemma ReadsQuoted(st: Splitter, quote: char, inside: Splitter, text: string, read: Splitter, closed: Splitter)
    requires SplitStep(st, quote) == inside && SplitRun(inside, text) == read && SplitStep(read, quote) == closed
    ensures SplitRun(st, [quote] + text + [quote]) == closed
  {
    assert [quote] + text + [quote] == [quote] + (text + [quote]);
    SplitRunCons(st, quote, text + [quote]);
    SplitRunConcat(inside, text, [quote]);
    SplitRunCons(read, quote, []);
    assert [quote] == [quote] + [];
  }

  lemma ReadsPiece(words: seq<string>, current: string, piece: Piece)
    requires piece.Valid()
    ensures SplitRun(Open(words, current), piece.Written()) == Open(words, current + piece.text)
  {
    match piece
    case Bare(text) => ReadsBare(words, current, text);
    case Single(text) =>
      ReadsInSingle(words, current, text);
      ReadsQuoted(Open(words, current), '\'', Splitter(words, current, true, false), text,
                  Splitter(words, current + text, true, false), Open(words, current + text));
    case Double(text) =>
      ReadsInDouble(words, current, text);
      ReadsQuoted(Open(words, current), '"', Splitter(words, current, false, true), text,
                  Splitter(words, current + text, false, true), Open(words, current + text));
  }

  lemma Regrouped<T>(a: seq<T>, b: seq<T>, c: seq<T>)
    ensures a + b + c == a + (b + c)
  {}

  lemma ReadsPieceThen(words: seq<string>, current: string, piece: Piece, rest: string, value: string)
    requires piece.Valid()
    requires SplitRun(Open(words, current + piece.text), rest) == Open(words, current + piece.text + value)
    ensures SplitRun(Open(words, current), piece.Written() + rest) == Open(words, current + (piece.text + value))
  {
    ReadsPiece(words, current, piece);
    SplitRunConcat(Open(words, current), piece.Written(), rest);
    Regrouped(current, piece.text, value);
  }

  lemma {:induction false} ReadsWord(words: seq<string>, current: string, word: Word)
    requires ValidWord(word)
    ensures SplitRun(Open(words, current), Written(word)) == Open(words, current + Value(word))
    decreases |word|
  {
    if word == [] {
      assert current + "" == current;
    } else {
      var first, rest := word[0], word[1..];
      ReadsWord(words, current + first.text, rest);
      ReadsPieceThen(words, current, first, Written(rest), Value(rest));
    }
  }

  /** Blanks close the word in progress. */
  lemma {:induction false} ReadsGap(words: seq<string>, current: string, gap: string)
    requires IsGap(gap)
    ensures SplitRun(Open(words, current), gap)
         == if gap == "" then Open(words, current) else Open(Flushed(Open(words, current)), "")
    decreases |gap|
  {
    if gap != "" {
      ReadsGap(Flushed(Open(words, current)), "", gap[1..]);
    }
  }

  // ----- the whole line

  lemma ReadsItem(words: seq<string>, item: Item, rest: string)
    requires ValidWord(item.word) && IsGap(item.gap) && (item.gap == "" ==> rest == "")
    ensures WordsAfter(words, Written(item.word) + (item.gap + rest))
         == WordsAfter(words + Kept(item.word), rest)
  {
    var st := Open(words, "");
    SplitRunConcat(st, Written(item.word), item.gap + rest);
    ReadsWord(words, "", item.word);
    assert "" + Value(item.word) == Value(item.word);
    SplitRunConcat(Open(words, Value(item.word)), item.gap, rest);
    ReadsGap(words, Value(item.word), item.gap);
    assert words + [] == words;
  }

  ghost predicate ReadsTo(words: seq<string>, items: seq<Item>) {
    WordsAfter(words, LineText(items)) == words + Values(items)
  }

  lemma ReadsFirst(words: seq<string>, items: seq<Item>)
    requires ValidLine(items) && items != [] && ReadsTo(words + Kept(items[0].word), items[1..])
    ensures ReadsTo(words, items)
  {
    ReadsItem(words, items[0], LineText(items[1..]));
    Regrouped(words, Kept(items[0].word), Values(items[1..]));
  }

  lemma ReadsNothing(words: seq<string>)
    ensures ReadsTo(words, [])
  {
    assert words + [] == words;
  }

  lemma {:induction false} ReadsItems(words: seq<string>, items: seq<Item>)
    requires ValidLine(items)
    ensures ReadsTo(words, items)
    decreases |items|
  {
    if items == [] {
      ReadsNothing(words);
    } else {
      ReadsItems(words + Kept(items[0].word), items[1..]);
      ReadsFirst(words, items);
    }
  }

  /** A line splits into the values of its words: quotes of either kind are removed and keep
      blanks and the other quote as they are; a word that comes to nothing is dropped. */
  lemma SplitsIntoValues(lead: string, items: seq<Item>)
    requires IsGap(lead) && ValidLine(items)
    ensures ShellWords(lead + LineText(items)) == Values(items)
  {
    SplitRunConcat(Open([], ""), lead, LineText(items));
    ReadsGap([], "", lead);
    ReadsItems([], items);
    assert [] + Values(items) == Values(items);
  }

  lemma LineMeans(s: string)
    ensures forall lead, items :: IsGap(lead) && ValidLine(items) && s == lead + LineText(items) ==>
              ShellWords(s) == Values(items)
  {
    forall lead, items | IsGap(lead) && ValidLine(items) && s == lead + LineText(items)
      ensures ShellWords(s) == Values(items)
    {
      SplitsIntoValues(lead, items);
    }
  }

  /** `shell_split`. */
  method ShellSplit(s: string) returns (words: seq<string>)
    ensures words == ShellWords(s)
    ensures forall lead, items :: IsGap(lead) && ValidLine(items) && s == lead + LineText(items) ==>
              words == Values(items)
  {
    LineMeans(s);
    words := [];
    var current := "";
    var inSingle, inDouble := false, false;
    for i := 0 to |s|
      invariant SplitRun(Splitter(words, current, inSingle, inDouble), s[i..])
             == SplitRun(Splitter([], "", false, false), s)
    {
      var c := s[i];
      assert s[i..][0] == c && s[i..][1..] == s[i + 1..];
      if c == '\'' && !inDouble {
        inSingle := !inSingle;
      } else if c == '"' && !inSingle {
        inDouble := !inDouble;
      } else if (c == ' ' || c == '\t') && !inSingle && !inDouble {
        if current != "" {
          words := words + [current];
          current := "";
        }
      } else {
        current := current + [c];
      }
    }
    if current != "" {
      words := words + [current];
    }
  }
}
