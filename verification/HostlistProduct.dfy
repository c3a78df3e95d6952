/** Every pattern as a product (`spur_core::hostlist`): a term such as `rack[1-2]-node[01-03]-ib`
    stands for one name for each choice from its brackets, the leftmost varying slowest. */
module HostlistProduct {
  import opened Text
  import opened Padding
  import opened HostRanges
  import opened Hostlist

  predicate PlainText(s: string) {
    ',' !in s && '[' !in s
  }

  lemma {:induction false} IndexOfFirst(a: string, c: char, b: string)
    requires c !in a
    ensures IndexOf(a + [c] + b, c) == |a|
  {
    if a != [] {
      IndexOfFirst(a[1..], c, b);
      assert (a + [c] + b)[1..] == a[1..] + [c] + b;
    }
  }

  lemma {:induction false} IndexOfAtMost(s: string, c: char, k: nat)
    requires k < |s| && s[k] == c
    ensures IndexOf(s, c) <= k
  {
    if s[0] != c {
      IndexOfAtMost(s[1..], c, k - 1);
    }
  }

  lemma IndexOfAbsent(s: string, c: char)
    requires c !in s
    ensures IndexOf(s, c) == |s|
  {}

  lemma {:induction false} JoinKeepsOut(parts: seq<string>, sep: string, c: char)
    requires c !in sep && NoneHolds(parts, c)
    ensures c !in Join(parts, sep)
  {
    if |parts| > 1 {
      JoinKeepsOut(parts[1..], sep, c);
    }
  }

  function Prefixed(prefix: string, texts: seq<string>): (names: seq<string>)
    ensures |names| == |texts| && forall k :: 0 <= k < |texts| ==> names[k] == prefix + texts[k]
  {
    seq(|texts|, k requires 0 <= k < |texts| => prefix + texts[k])
  }

  lemma PrefixedConcat(prefix: string, a: seq<string>, b: seq<string>)
    ensures Prefixed(prefix, a + b) == Prefixed(prefix, a) + Prefixed(prefix, b)
  {}

  lemma PrefixedTwice(a: string, b: string, texts: seq<string>)
    ensures Prefixed(a, Prefixed(b, texts)) == Prefixed(a + b, texts)
  {
    forall k | 0 <= k < |texts| ensures Prefixed(a, Prefixed(b, texts))[k] == a + b + texts[k] {
      Assoc(a, b, texts[k]);
    }
  }

  /** `results` and `more`, unless that is too many. */
  function Capped(results: seq<string>, more: seq<string>): Outcome<seq<string>> {
    if |results| + |more| <= MAX_HOSTLIST_SIZE then Ok(results + more) else Err
  }

  lemma CappedTwice(results: seq<string>, a: seq<string>, b: seq<string>)
    ensures Capped(results, a + b) == match Capped(results, a) case Err => Err case Ok(longer) => Capped(longer, b)
  {
    assert results + (a + b) == results + a + b;
  }

  lemma Assoc<T>(a: seq<T>, b: seq<T>, c: seq<T>)
    ensures a + (b + c) == a + b + c
  {}

  // ----- a term in pieces

  /** One item of a bracket: a word, or the texts around its first dash. */
  datatype Item = Word(text: string) | Dashed(left: string, right: string)

  datatype Piece = Plain(text: string) | Bracket(items: seq<Item>)

  predicate Unbracketed(s: string) {
    '[' !in s && ']' !in s
  }

  predicate ValidItem(item: Item) {
    match item
    case Word(text) => Unbracketed(text) && ',' !in text && '-' !in text
    case Dashed(left, right) =>
      && Unbracketed(left) && ',' !in left && '-' !in left
      && Unbracketed(right) && ',' !in right
  }

  predicate ValidItems(items: seq<Item>) {
    forall k :: 0 <= k < |items| ==> ValidItem(items[k])
  }

  predicate ValidPieces(pieces: seq<Piece>) {
    forall k :: 0 <= k < |pieces| ==>
      match pieces[k]
      case Plain(text) => Unbracketed(text)
      case Bracket(items) => items != [] && ValidItems(items)
  }

  function PrintItem(item: Item): string {
    match item case Word(text) => text case Dashed(left, right) => left + ['-'] + right
  }

  function PrintItems(items: seq<Item>): (texts: seq<string>)
    ensures |texts| == |items| && forall k :: 0 <= k < |items| ==> texts[k] == PrintItem(items[k])
  {
    seq(|items|, k requires 0 <= k < |items| => PrintItem(items[k]))
  }

  function Print(pieces: seq<Piece>): string {
    if pieces == [] then ""
    else
      match pieces[0]
      case Plain(text) => text + Print(pieces[1..])
      case Bracket(items) => "[" + (Join(PrintItems(items), ",") + ("]" + Print(pieces[1..])))
  }

  // ----- the names a term stands for

  /** A dashed item must be a range: two 64-bit numbers, the first not above the second. */
  predicate Reads(item: Item) {
    match item
    case Word(_) => true
    case Dashed(left, right) =>
      ParseU64(left).Some? && ParseU64(right).Some? && ParseU64(left).value <= ParseU64(right).value
  }

  predicate AllRead(items: seq<Item>) {
    forall k :: 0 <= k < |items| ==> Reads(items[k])
  }

  predicate PiecesRead(pieces: seq<Piece>) {
    forall k :: 0 <= k < |pieces| && pieces[k].Bracket? ==> AllRead(pieces[k].items)
  }

  /** A word is taken as it is; the numbers of a range are padded to the width of its first. */
  function ItemNames(item: Item): seq<string>
    requires Reads(item)
  {
    match item
    case Word(text) => [text]
    case Dashed(left, right) => Span(ParseU64(left).value, ParseU64(right).value, |left|)
  }

  function ItemsNames(items: seq<Item>): seq<string>
    requires AllRead(items)
  {
    if items == [] then [] else ItemNames(items[0]) + ItemsNames(items[1..])
  }

  /** Every choice of a first part, followed by every choice of the rest. */
  function Each(firsts: seq<string>, tails: seq<string>): seq<string> {
    if firsts == [] then [] else Prefixed(firsts[0], tails) + Each(firsts[1..], tails)
  }

  function Names(pieces: seq<Piece>): seq<string>
    requires PiecesRead(pieces)
  {
    if pieces == [] then [""]
    else
      match pieces[0]
      case Plain(text) => Prefixed(text, Names(pieces[1..]))
      case Bracket(items) => Each(ItemsNames(items), Names(pieces[1..]))
  }

  lemma {:induction false} EachConcat(a: seq<string>, b: seq<string>, tails: seq<string>)
    ensures Each(a + b, tails) == Each(a, tails) + Each(b, tails)
  {
    if a == [] {
      assert a + b == b;
    } else {
      EachConcat(a[1..], b, tails);
      assert (a + b)[1..] == a[1..] + b && (a + b)[0] == a[0];
      Assoc(Prefixed(a[0], tails), Each(a[1..], tails), Each(b, tails));
    }
  }

  lemma {:induction false} EachLength(firsts: seq<string>, tails: seq<string>)
    requires tails != []
    ensures |Each(firsts, tails)| >= |firsts|
  {
    if firsts != [] {
      EachLength(firsts[1..], tails);
    }
  }

  lemma {:induction false} EachAlone(firsts: seq<string>)
    ensures Each(firsts, [""]) == firsts
  {
    if firsts != [] {
      EachAlone(firsts[1..]);
      assert firsts[0] + "" == firsts[0];
      assert Prefixed(firsts[0], [""]) == [firsts[0]];
    }
  }

  lemma OnlyBracket(items: seq<Item>)
    requires AllRead(items)
    ensures Names([Bracket(items)]) == ItemsNames(items)
  {
    var pieces := [Bracket(items)];
    assert pieces[1..] == [] && Names(pieces[1..]) == [""];
    EachAlone(ItemsNames(items));
  }

  lemma ItemNamesExist(item: Item)
    requires Reads(item)
    ensures ItemNames(item) != []
  {
    if item.Dashed? {
      SpanLength(ParseU64(item.left).value, ParseU64(item.right).value, |item.left|);
    }
  }

  lemma {:induction false} NamesExist(pieces: seq<Piece>)
    requires ValidPieces(pieces) && PiecesRead(pieces)
    ensures Names(pieces) != []
  {
    if pieces != [] {
      NamesExist(pieces[1..]);
      if pieces[0].Bracket? {
        ItemNamesExist(pieces[0].items[0]);
        EachLength(ItemsNames(pieces[0].items), Names(pieces[1..]));
      }
    }
  }

  // ----- expanding the pieces

  lemma ExpandBare(name: string, results: seq<string>)
    requires '[' !in name
    ensures ExpandSingle(name, results) == Push(results, name)
  {
    IndexOfAbsent(name, '[');
  }

  /** A closing bracket ahead of the first opening one is an error. */
  lemma ExpandAfterClose(prefix: string, rest: string, results: seq<string>)
    requires PlainText(prefix) && ']' in prefix
    ensures ExpandSingle(prefix + "[" + rest, results) == Err
  {
    var pattern := prefix + "[" + rest;
    assert pattern == prefix + ['['] + rest;
    IndexOfFirst(prefix, '[', rest);
    var k :| 0 <= k < |prefix| && prefix[k] == ']';
    assert pattern[k] == ']';
    IndexOfAtMost(pattern, ']', k);
  }

  /** An opening bracket that is never closed is an error. */
  lemma ExpandUnclosed(prefix: string, rest: string, results: seq<string>)
    requires '[' !in prefix && ']' !in prefix && ']' !in rest
    ensures ExpandSingle(prefix + "[" + rest, results) == Err
  {
    var pattern := prefix + "[" + rest;
    assert pattern == prefix + ['['] + rest;
    IndexOfFirst(prefix, '[', rest);
    IndexOfAbsent(pattern, ']');
  }

  /** After any text without brackets, `suffix` stands for `tails`. */
  ghost predicate Completes(suffix: string, tails: seq<string>) {
    forall name: string, r: seq<string> :: Unbracketed(name) && |r| <= MAX_HOSTLIST_SIZE ==>
      ExpandSingle(name + suffix, r) == Capped(r, Prefixed(name, tails))
  }

  ghost predicate Refused(suffix: string) {
    forall name: string, r: seq<string> :: Unbracketed(name) && |r| <= MAX_HOSTLIST_SIZE ==>
      ExpandSingle(name + suffix, r) == Err
  }

  /** A name is expanded as a term of its own, whether or not brackets follow it. */
  lemma NameIsSingle(prefix: string, value: string, suffix: string, results: seq<string>)
    requires Unbracketed(prefix) && Unbracketed(value)
    ensures ExpandName(prefix, value, suffix, results) == ExpandSingle(prefix + value + suffix, results)
  {
    if '[' !in suffix {
      ExpandBare(prefix + value + suffix, results);
    }
  }

  lemma NameCompletes(prefix: string, value: string, suffix: string, tails: seq<string>, results: seq<string>)
    requires Unbracketed(prefix) && Unbracketed(value) && Completes(suffix, tails) && |results| <= MAX_HOSTLIST_SIZE
    ensures ExpandName(prefix, value, suffix, results) == Capped(results, Prefixed(prefix, Prefixed(value, tails)))
  {
    NameIsSingle(prefix, value, suffix, results);
    PrefixedTwice(prefix, value, tails);
    assert Unbracketed(prefix + value);
  }

  /** One more choice of a first part. */
  lemma EachStep(prefix: string, first: string, rest: seq<string>, tails: seq<string>, results: seq<string>)
    ensures Capped(results, Prefixed(prefix, Each([first] + rest, tails)))
         == match Capped(results, Prefixed(prefix, Prefixed(first, tails)))
            case Err => Err
            case Ok(longer) => Capped(longer, Prefixed(prefix, Each(rest, tails)))
  {
    assert ([first] + rest)[1..] == rest;
    PrefixedConcat(prefix, Prefixed(first, tails), Each(rest, tails));
    CappedTwice(results, Prefixed(prefix, Prefixed(first, tails)), Prefixed(prefix, Each(rest, tails)));
  }

  lemma {:induction false} RangeCompletes(prefix: string, i: nat, end: nat, width: nat, suffix: string,
                                              tails: seq<string>, results: seq<string>)
    requires Unbracketed(prefix) && Completes(suffix, tails) && |results| <= MAX_HOSTLIST_SIZE
    ensures ExpandRange(prefix, i, end, width, suffix, results)
         == Capped(results, Prefixed(prefix, Each(Span(i, end, width), tails)))
    decreases end + 1 - i
  {
    if i <= end {
      PadIsDigits(i, width);
      NameCompletes(prefix, Pad(i, width), suffix, tails, results);
      EachStep(prefix, Pad(i, width), Span(i + 1, end, width), tails, results);
      var longer := ExpandName(prefix, Pad(i, width), suffix, results);
      if longer.Ok? {
        RangeCompletes(prefix, i + 1, end, width, suffix, tails, longer.value);
      }
    } else {
      assert results + Prefixed(prefix, []) == results;
    }
  }

  /** How an item is read off its text. */
  lemma ItemBounds(item: Item)
    requires ValidItem(item)
    ensures Unbracketed(PrintItem(item)) && ',' !in PrintItem(item)
    ensures item.Word? ==> ParseRangeBounds(PrintItem(item)) == NotARange
    ensures item.Dashed? && !Reads(item) ==> ParseRangeBounds(PrintItem(item)) == BadRange
    ensures item.Dashed? && Reads(item) ==>
              ParseRangeBounds(PrintItem(item))
              == Bounds(ParseU64(item.left).value, ParseU64(item.right).value, |item.left|)
  {
    match item
    case Word(text) => IndexOfAbsent(text, '-');
    case Dashed(left, right) =>
      IndexOfFirst(left, '-', right);
      var text := left + ['-'] + right;
      assert text[..|left|] == left && text[|left| + 1..] == right;
  }

  lemma WordCompletes(prefix: string, text: string, suffix: string, tails: seq<string>, results: seq<string>)
    requires Unbracketed(prefix) && Unbracketed(text) && Completes(suffix, tails) && |results| <= MAX_HOSTLIST_SIZE
    ensures ExpandName(prefix, text, suffix, results) == Capped(results, Prefixed(prefix, Each([text], tails)))
  {
    NameCompletes(prefix, text, suffix, tails, results);
    assert [text][1..] == [];
    assert Prefixed(text, tails) + [] == Prefixed(text, tails);
  }

  /** Counting a range ahead refuses nothing that would have fitted. */
  lemma PartCompletes(prefix: string, item: Item, suffix: string, tails: seq<string>, results: seq<string>)
    requires Unbracketed(prefix) && ValidItem(item) && Reads(item)
    requires Completes(suffix, tails) && tails != [] && |results| <= MAX_HOSTLIST_SIZE
    ensures Unbracketed(PrintItem(item))
    ensures ExpandPart(prefix, PrintItem(item), suffix, results)
         == Capped(results, Prefixed(prefix, Each(ItemNames(item), tails)))
  {
    ItemBounds(item);
    match item
    case Word(text) => WordCompletes(prefix, text, suffix, tails, results);
    case Dashed(left, right) =>
      var lo, hi := ParseU64(left).value, ParseU64(right).value;
      RangeCompletes(prefix, lo, hi, |left|, suffix, tails, results);
      SpanLength(lo, hi, |left|);
      EachLength(Span(lo, hi, |left|), tails);
  }

  lemma PrintedItems(items: seq<Item>)
    requires ValidItems(items)
    ensures NoneHolds(PrintItems(items), ',') && NoneHolds(PrintItems(items), '[') && NoneHolds(PrintItems(items), ']')
    ensures Unbracketed(Join(PrintItems(items), ","))
  {
    forall k | 0 <= k < |items| ensures Unbracketed(PrintItems(items)[k]) && ',' !in PrintItems(items)[k] {
      ItemBounds(items[k]);
    }
    JoinKeepsOut(PrintItems(items), ",", '[');
    JoinKeepsOut(PrintItems(items), ",", ']');
  }

  lemma {:induction false} PartsComplete(prefix: string, items: seq<Item>, suffix: string, tails: seq<string>,
                                             results: seq<string>)
    requires Unbracketed(prefix) && ValidItems(items) && AllRead(items)
    requires Completes(suffix, tails) && tails != [] && |results| <= MAX_HOSTLIST_SIZE
    ensures NoneHolds(PrintItems(items), ']')
    ensures ExpandParts(prefix, PrintItems(items), suffix, results)
         == Capped(results, Prefixed(prefix, Each(ItemsNames(items), tails)))
    decreases |items|
  {
    PrintedItems(items);
    if items == [] {
      assert results + Prefixed(prefix, []) == results;
    } else {
      var first, rest := items[0], items[1..];
      assert PrintItems(items)[1..] == PrintItems(rest);
      EachConcat(ItemNames(first), ItemsNames(rest), tails);
      var a, b := Each(ItemNames(first), tails), Each(ItemsNames(rest), tails);
      PrefixedConcat(prefix, a, b);
      CappedTwice(results, Prefixed(prefix, a), Prefixed(prefix, b));
      PartCompletes(prefix, first, suffix, tails, results);
      var longer := Capped(results, Prefixed(prefix, a));
      if longer.Ok? {
        PartsComplete(prefix, rest, suffix, tails, longer.value);
      }
    }
  }

  lemma BracketText(prefix: string, body: string, suffix: string)
    ensures var pattern := prefix + ("[" + (body + ("]" + suffix)));
            && pattern == prefix + ['['] + (body + ("]" + suffix))
            && pattern == (prefix + "[" + body) + [']'] + suffix
  {}

  lemma BracketSlices(prefix: string, body: string, suffix: string)
    ensures var pattern := prefix + ("[" + (body + ("]" + suffix)));
            var open, close := |prefix|, |prefix| + 1 + |body|;
            && open < close < |pattern|
            && pattern[..open] == prefix && pattern[open + 1..close] == body && pattern[close + 1..] == suffix
  {}

  lemma FirstBrackets(prefix: string, body: string, suffix: string)
    requires Unbracketed(prefix) && Unbracketed(body)
    ensures var pattern := prefix + ("[" + (body + ("]" + suffix)));
            IndexOf(pattern, '[') == |prefix| && IndexOf(pattern, ']') == |prefix| + 1 + |body|
  {
    BracketText(prefix, body, suffix);
    IndexOfFirst(prefix, '[', body + ("]" + suffix));
    IndexOfFirst(prefix + "[" + body, ']', suffix);
  }

  /** The first brackets of a term are the ones that are expanded first. */
  lemma SingleBracket(prefix: string, items: seq<Item>, suffix: string, results: seq<string>)
    requires Unbracketed(prefix) && items != [] && ValidItems(items)
    ensures NoneHolds(PrintItems(items), ']')
    ensures ExpandSingle(prefix + ("[" + (Join(PrintItems(items), ",") + ("]" + suffix))), results)
         == ExpandParts(prefix, PrintItems(items), suffix, results)
  {
    PrintedItems(items);
    FirstBrackets(prefix, Join(PrintItems(items), ","), suffix);
    BracketSlices(prefix, Join(PrintItems(items), ","), suffix);
    SplitJoinForward(PrintItems(items), ',');
  }

  lemma BracketCompletes(items: seq<Item>, suffix: string, tails: seq<string>)
    requires items != [] && ValidItems(items) && AllRead(items) && Completes(suffix, tails) && tails != []
    ensures Completes("[" + (Join(PrintItems(items), ",") + ("]" + suffix)), Each(ItemsNames(items), tails))
  {
    var whole := "[" + (Join(PrintItems(items), ",") + ("]" + suffix));
    forall name: string, r: seq<string> | Unbracketed(name) && |r| <= MAX_HOSTLIST_SIZE
      ensures ExpandSingle(name + whole, r) == Capped(r, Prefixed(name, Each(ItemsNames(items), tails)))
    {
      SingleBracket(name, items, suffix, r);
      PartsComplete(name, items, suffix, tails, r);
    }
  }

  lemma PlainCompletes(text: string, suffix: string, tails: seq<string>)
    requires Unbracketed(text) && Completes(suffix, tails)
    ensures Completes(text + suffix, Prefixed(text, tails))
  {
    forall name: string, r: seq<string> | Unbracketed(name) && |r| <= MAX_HOSTLIST_SIZE
      ensures ExpandSingle(name + (text + suffix), r) == Capped(r, Prefixed(name, Prefixed(text, tails)))
    {
      Assoc(name, text, suffix);
      PrefixedTwice(name, text, tails);
      assert Unbracketed(name + text);
    }
  }

  lemma NothingCompletes()
    ensures Completes("", [""])
  {
    forall name: string, r: seq<string> | Unbracketed(name) && |r| <= MAX_HOSTLIST_SIZE
      ensures ExpandSingle(name + "", r) == Capped(r, Prefixed(name, [""]))
    {
      assert name + "" == name && Prefixed(name, [""]) == [name];
      ExpandBare(name, r);
    }
  }

  lemma {:induction false} PiecesComplete(pieces: seq<Piece>)
    requires ValidPieces(pieces) && PiecesRead(pieces)
    ensures Completes(Print(pieces), Names(pieces))
  {
    if pieces == [] {
      NothingCompletes();
    } else {
      var rest := pieces[1..];
      PiecesComplete(rest);
      match pieces[0]
      case Plain(text) => PlainCompletes(text, Print(rest), Names(rest));
      case Bracket(items) =>
        NamesExist(rest);
        BracketCompletes(items, Print(rest), Names(rest));
    }
  }

  /** A term whose ranges read stands for the product of its brackets, with the text between and
      after them, however many there are. */
  lemma ExpandProduct(pieces: seq<Piece>, prefix: string, results: seq<string>)
    requires ValidPieces(pieces) && PiecesRead(pieces) && Unbracketed(prefix) && |results| <= MAX_HOSTLIST_SIZE
    ensures ExpandSingle(prefix + Print(pieces), results) == Capped(results, Prefixed(prefix, Names(pieces)))
  {
    PiecesComplete(pieces);
  }

  // ----- a dashed item that is no range refuses the term

  lemma NameRefused(prefix: string, value: string, suffix: string, results: seq<string>)
    requires Unbracketed(prefix) && Unbracketed(value) && Refused(suffix) && |results| <= MAX_HOSTLIST_SIZE
    ensures ExpandName(prefix, value, suffix, results) == Err
  {
    NameIsSingle(prefix, value, suffix, results);
    assert Unbracketed(prefix + value);
  }

  lemma PartRefused(prefix: string, item: Item, suffix: string, results: seq<string>)
    requires Unbracketed(prefix) && ValidItem(item) && |results| <= MAX_HOSTLIST_SIZE
    requires Refused(suffix) || !Reads(item)
    ensures Unbracketed(PrintItem(item)) && ExpandPart(prefix, PrintItem(item), suffix, results) == Err
  {
    ItemBounds(item);
    if Reads(item) {
      match item
      case Word(text) => NameRefused(prefix, text, suffix, results);
      case Dashed(left, right) =>
        var lo := ParseU64(left).value;
        PadIsDigits(lo, |left|);
        NameRefused(prefix, Pad(lo, |left|), suffix, results);
    }
  }

  lemma {:induction false} PartsRefused(prefix: string, items: seq<Item>, suffix: string, tails: seq<string>,
                                            results: seq<string>)
    requires Unbracketed(prefix) && ValidItems(items) && |results| <= MAX_HOSTLIST_SIZE
    requires (items != [] && Refused(suffix)) || (!AllRead(items) && Completes(suffix, tails) && tails != [])
    ensures NoneHolds(PrintItems(items), ']')
    ensures ExpandParts(prefix, PrintItems(items), suffix, results) == Err
    decreases |items|
  {
    PrintedItems(items);
    var first, rest := items[0], items[1..];
    assert PrintItems(items)[1..] == PrintItems(rest);
    if Refused(suffix) || !Reads(first) {
      PartRefused(prefix, first, suffix, results);
    } else {
      PartCompletes(prefix, first, suffix, tails, results);
      var longer := ExpandPart(prefix, PrintItem(first), suffix, results);
      if longer.Ok? {
        PartsRefused(prefix, rest, suffix, tails, longer.value);
      }
    }
  }

  lemma BracketRefused(items: seq<Item>, suffix: string, tails: seq<string>)
    requires items != [] && ValidItems(items)
    requires Refused(suffix) || (!AllRead(items) && Completes(suffix, tails) && tails != [])
    ensures Refused("[" + (Join(PrintItems(items), ",") + ("]" + suffix)))
  {
    var whole := "[" + (Join(PrintItems(items), ",") + ("]" + suffix));
    forall name: string, r: seq<string> | Unbracketed(name) && |r| <= MAX_HOSTLIST_SIZE
      ensures ExpandSingle(name + whole, r) == Err
    {
      SingleBracket(name, items, suffix, r);
      PartsRefused(name, items, suffix, tails, r);
    }
  }

  lemma PlainRefused(text: string, suffix: string)
    requires Unbracketed(text) && Refused(suffix)
    ensures Refused(text + suffix)
  {
    forall name: string, r: seq<string> | Unbracketed(name) && |r| <= MAX_HOSTLIST_SIZE
      ensures ExpandSingle(name + (text + suffix), r) == Err
    {
      Assoc(name, text, suffix);
      assert Unbracketed(name + text);
    }
  }

  /** Text that is not a range, or a range that runs backwards, is an error in any bracket. */
  lemma {:induction false} PiecesRefused(pieces: seq<Piece>)
    requires ValidPieces(pieces) && !PiecesRead(pieces)
    ensures Refused(Print(pieces))
  {
    var rest := pieces[1..];
    if PiecesRead(rest) {
      PiecesComplete(rest);
      NamesExist(rest);
      BracketRefused(pieces[0].items, Print(rest), Names(rest));
    } else {
      PiecesRefused(rest);
      match pieces[0]
      case Plain(text) => PlainRefused(text, Print(rest));
      case Bracket(items) => BracketRefused(items, Print(rest), []);
    }
  }

  // ----- a whole pattern

  lemma TrimTrimmed(s: string)
    requires s != "" && !IsWhitespace(s[0]) && !IsWhitespace(s[|s| - 1])
    ensures Trim(s) == s
  {}

  /** Text with no opening bracket is kept whole, if its commas are inside brackets and its
      closing brackets outside. */
  lemma {:induction false} SplitTopPlain(s: string, rest: string, depth: nat, current: string)
    requires '[' !in s && (']' in s ==> depth == 0) && (',' in s ==> depth > 0)
    ensures SplitTopFrom(s + rest, depth, current) == SplitTopFrom(rest, depth, current + s)
    decreases |s|
  {
    if s == [] {
      assert s + rest == rest && current + s == current;
    } else {
      assert (s + rest)[1..] == s[1..] + rest;
      SplitTopPlain(s[1..], rest, depth, current + [s[0]]);
      assert current + [s[0]] + s[1..] == current + s;
    }
  }

  lemma SplitTopBracketed(prefix: string, body: string, rest: string)
    requires PlainText(prefix) && '[' !in body && ']' !in body
    ensures SplitTopFrom(prefix + "[" + body + "]" + rest, 0, "")
         == SplitTopFrom(rest, 0, prefix + "[" + body + "]")
  {
    var tail := "]" + rest;
    var inner := "[" + (body + tail);
    assert prefix + "[" + body + "]" + rest == prefix + inner;
    SplitTopPlain(prefix, inner, 0, "");
    assert "" + prefix == prefix && inner[1..] == body + tail;
    SplitTopPlain(body, tail, 1, prefix + "[");
    assert tail[1..] == rest;
  }

  /** As one term of a pattern, `text` stands for `names`. */
  ghost predicate Expands(expand: Expander, text: string, names: seq<string>) {
    forall r: seq<string> :: |r| <= MAX_HOSTLIST_SIZE ==> expand(text, r) == Capped(r, names)
  }

  ghost predicate Fails(expand: Expander, text: string) {
    forall r: seq<string> :: |r| <= MAX_HOSTLIST_SIZE ==> expand(text, r) == Err
  }

  function Concat(lists: seq<seq<string>>): seq<string> {
    if lists == [] then [] else lists[0] + Concat(lists[1..])
  }

  lemma {:induction false} ExpandEachIs(expand: Expander, texts: seq<string>, names: seq<seq<string>>,
                                            results: seq<string>)
    requires |texts| == |names| && |results| <= MAX_HOSTLIST_SIZE
    requires forall k :: 0 <= k < |texts| ==> Expands(expand, texts[k], names[k])
    ensures ExpandEach(expand, texts, results) == Capped(results, Concat(names))
    decreases |texts|
  {
    if texts == [] {
      assert results + [] == results;
    } else {
      CappedTwice(results, names[0], Concat(names[1..]));
      var longer := Capped(results, names[0]);
      if longer.Ok? {
        ExpandEachIs(expand, texts[1..], names[1..], longer.value);
      }
    }
  }

  /** Every term stands for its names or fails. */
  ghost predicate EachDecided(expand: Expander, texts: seq<string>, names: seq<seq<string>>) {
    && |texts| == |names|
    && forall k :: 0 <= k < |texts| ==> Expands(expand, texts[k], names[k]) || Fails(expand, texts[k])
  }

  lemma {:induction false} ExpandEachFails(expand: Expander, texts: seq<string>, names: seq<seq<string>>,
                                               bad: nat, results: seq<string>)
    requires EachDecided(expand, texts, names) && |results| <= MAX_HOSTLIST_SIZE
    requires bad < |texts| && Fails(expand, texts[bad])
    ensures ExpandEach(expand, texts, results) == Err
    decreases bad
  {
    if !Fails(expand, texts[0]) {
      var longer := Capped(results, names[0]);
      if longer.Ok? {
        ExpandEachFails(expand, texts[1..], names[1..], bad - 1, longer.value);
      }
    }
  }

  /** A term as it stands between commas: blanks, the pieces, blanks. */
  datatype Spaced = Spaced(before: string, pieces: seq<Piece>, after: string)

  predicate Blank(s: string) {
    forall k :: 0 <= k < |s| ==> IsWhitespace(s[k])
  }

  predicate Trimmed(s: string) {
    s == "" || (!IsWhitespace(s[0]) && !IsWhitespace(s[|s| - 1]))
  }

  /** Commas are inside brackets only. */
  predicate NoTopComma(pieces: seq<Piece>) {
    forall k :: 0 <= k < |pieces| && pieces[k].Plain? ==> ',' !in pieces[k].text
  }

  predicate ValidTerms(terms: seq<Spaced>) {
    forall k :: 0 <= k < |terms| ==>
      && Blank(terms[k].before) && Blank(terms[k].after) && Trimmed(Print(terms[k].pieces))
      && ValidPieces(terms[k].pieces) && NoTopComma(terms[k].pieces)
  }

  function TermText(t: Spaced): string {
    t.before + Print(t.pieces) + t.after
  }

  function TermTexts(terms: seq<Spaced>): (texts: seq<string>)
    ensures |texts| == |terms| && forall k :: 0 <= k < |terms| ==> texts[k] == TermText(terms[k])
  {
    seq(|terms|, k requires 0 <= k < |terms| => TermText(terms[k]))
  }

  function PatternText(terms: seq<Spaced>): string {
    Join(TermTexts(terms), ",")
  }

  predicate TermsRead(terms: seq<Spaced>) {
    forall k :: 0 <= k < |terms| ==> PiecesRead(terms[k].pieces)
  }

  function Products(terms: seq<Spaced>): (lists: seq<seq<string>>)
    requires TermsRead(terms)
    ensures |lists| == |terms| && forall k :: 0 <= k < |terms| ==> lists[k] == Names(terms[k].pieces)
  {
    seq(|terms|, k requires 0 <= k < |terms| => Names(terms[k].pieces))
  }

  function WithoutEmpty(names: Outcome<seq<string>>): Outcome<seq<string>> {
    match names case Err => Err case Ok(names) => Ok(NonEmpty(names))
  }

  /** The products of the terms in order, without empty names, unless there are too many. */
  function Meaning(terms: seq<Spaced>): Outcome<seq<string>> {
    if TermsRead(terms) then WithoutEmpty(Capped([], Concat(Products(terms)))) else Err
  }

  lemma {:induction false} TrimStartDropsBlanks(blanks: string, s: string)
    requires Blank(blanks)
    ensures TrimStart(blanks + s) == TrimStart(s)
  {
    if blanks == [] {
      assert blanks + s == s;
    } else {
      assert (blanks + s)[1..] == blanks[1..] + s && (blanks + s)[0] == blanks[0];
      TrimStartDropsBlanks(blanks[1..], s);
    }
  }

  lemma {:induction false} TrimEndDropsBlanks(s: string, blanks: string)
    requires Blank(blanks)
    ensures TrimEnd(s + blanks) == TrimEnd(s)
  {
    if blanks == [] {
      assert s + blanks == s;
    } else {
      var n := |blanks| - 1;
      TrimEndDropsBlanks(s, blanks[..n]);
      assert (s + blanks)[..|s| + n] == s + blanks[..n];
    }
  }

  lemma TrimDropsBlanks(before: string, s: string, after: string)
    requires Blank(before) && Blank(after) && Trimmed(s)
    ensures Trim(before + s + after) == s
  {
    Assoc(before, s, after);
    TrimStartDropsBlanks(before, s + after);
    if s == "" {
      assert s + after == after + "";
      TrimStartDropsBlanks(after, "");
    } else {
      assert (s + after)[0] == s[0];
      TrimEndDropsBlanks(s, after);
    }
  }

  lemma SplitTopBracket(body: string, rest: string, current: string)
    requires Unbracketed(body)
    ensures SplitTopFrom("[" + (body + ("]" + rest)), 0, current) == SplitTopFrom(rest, 0, current + ("[" + body + "]"))
  {
    var tail := "]" + rest;
    var inner := "[" + (body + tail);
    assert inner[1..] == body + tail && tail[1..] == rest;
    SplitTopPlain(body, tail, 1, current + "[");
    assert current + "[" + body + "]" == current + ("[" + body + "]");
  }

  lemma BracketThen(body: string, more: string, rest: string, current: string)
    ensures "[" + (body + ("]" + more)) + rest == "[" + (body + ("]" + (more + rest)))
    ensures current + ("[" + body + "]") + more == current + ("[" + (body + ("]" + more)))
  {}

  /** The commas inside brackets do not separate terms. */
  lemma {:induction false} SplitTopPieces(pieces: seq<Piece>, rest: string, current: string)
    requires ValidPieces(pieces) && NoTopComma(pieces)
    ensures SplitTopFrom(Print(pieces) + rest, 0, current) == SplitTopFrom(rest, 0, current + Print(pieces))
    decreases |pieces|
  {
    if pieces == [] {
      assert Print(pieces) + rest == rest && current + "" == current;
    } else {
      var more := Print(pieces[1..]);
      match pieces[0]
      case Plain(text) =>
        Assoc(text, more, rest);
        SplitTopPlain(text, more + rest, 0, current);
        SplitTopPieces(pieces[1..], rest, current + text);
        Assoc(current, text, more);
      case Bracket(items) =>
        PrintedItems(items);
        var body := Join(PrintItems(items), ",");
        BracketThen(body, more, rest, current);
        SplitTopBracket(body, more + rest, current);
        SplitTopPieces(pieces[1..], rest, current + ("[" + body + "]"));
    }
  }

  lemma SplitTopSpaced(t: Spaced, rest: string)
    requires Blank(t.before) && Blank(t.after) && ValidPieces(t.pieces) && NoTopComma(t.pieces)
    ensures SplitTopFrom(TermText(t) + rest, 0, "") == SplitTopFrom(rest, 0, TermText(t))
  {
    var text := Print(t.pieces);
    assert TermText(t) + rest == t.before + (text + (t.after + rest));
    SplitTopPlain(t.before, text + (t.after + rest), 0, "");
    assert "" + t.before == t.before;
    SplitTopPieces(t.pieces, t.after + rest, t.before);
    SplitTopPlain(t.after, rest, 0, t.before + text);
  }

  lemma {:induction false} SplitTopTerms(terms: seq<Spaced>)
    requires terms != [] && ValidTerms(terms)
    ensures SplitTopFrom(PatternText(terms), 0, "") == TermTexts(terms)
  {
    var first, rest := terms[0], terms[1..];
    if rest == [] {
      SplitTopSpaced(first, "");
      assert TermText(first) + "" == TermText(first);
      assert TermTexts(terms) == [TermText(first)];
    } else {
      assert TermTexts(terms)[1..] == TermTexts(rest);
      var tail := "," + PatternText(rest);
      assert PatternText(terms) == TermText(first) + tail;
      SplitTopSpaced(first, tail);
      assert tail[1..] == PatternText(rest);
      SplitTopTerms(rest);
    }
  }

  lemma AloneExpands(text: string, names: seq<string>, results: seq<string>)
    requires Completes(text, names) && |results| <= MAX_HOSTLIST_SIZE
    ensures ExpandSingle(text, results) == Capped(results, names)
  {
    assert Unbracketed("") && "" + text == text;
    assert ExpandSingle("" + text, results) == Capped(results, Prefixed("", names));
    forall k | 0 <= k < |names| ensures Prefixed("", names)[k] == names[k] {
      assert "" + names[k] == names[k];
    }
    assert Prefixed("", names) == names;
  }

  lemma ExpandsAlone(before: string, text: string, after: string, names: seq<string>)
    requires Blank(before) && Blank(after) && Trimmed(text) && Completes(text, names)
    ensures Expands(ExpandTrimmed, before + text + after, names)
  {
    TrimDropsBlanks(before, text, after);
    forall r: seq<string> | |r| <= MAX_HOSTLIST_SIZE
      ensures ExpandTrimmed(before + text + after, r) == Capped(r, names)
    {
      AloneExpands(text, names, r);
    }
  }

  lemma AloneFails(text: string, results: seq<string>)
    requires Refused(text) && |results| <= MAX_HOSTLIST_SIZE
    ensures ExpandSingle(text, results) == Err
  {
    assert Unbracketed("") && "" + text == text;
    assert ExpandSingle("" + text, results) == Err;
  }

  lemma FailsAlone(before: string, text: string, after: string)
    requires Blank(before) && Blank(after) && Trimmed(text) && Refused(text)
    ensures Fails(ExpandTrimmed, before + text + after)
  {
    TrimDropsBlanks(before, text, after);
    forall r: seq<string> | |r| <= MAX_HOSTLIST_SIZE ensures ExpandTrimmed(before + text + after, r) == Err {
      AloneFails(text, r);
    }
  }

  lemma SpacedExpands(t: Spaced)
    requires Blank(t.before) && Blank(t.after) && Trimmed(Print(t.pieces)) && ValidPieces(t.pieces)
    ensures PiecesRead(t.pieces) ==> Expands(ExpandTrimmed, TermText(t), Names(t.pieces))
    ensures !PiecesRead(t.pieces) ==> Fails(ExpandTrimmed, TermText(t))
  {
    if PiecesRead(t.pieces) {
      PiecesComplete(t.pieces);
      ExpandsAlone(t.before, Print(t.pieces), t.after, Names(t.pieces));
    } else {
      PiecesRefused(t.pieces);
      FailsAlone(t.before, Print(t.pieces), t.after);
    }
  }

  lemma TermsExpandEach(terms: seq<Spaced>)
    requires ValidTerms(terms) && TermsRead(terms)
    ensures ExpandEach(ExpandTrimmed, TermTexts(terms), []) == Capped([], Concat(Products(terms)))
  {
    forall k | 0 <= k < |terms| ensures Expands(ExpandTrimmed, TermTexts(terms)[k], Products(terms)[k]) {
      SpacedExpands(terms[k]);
    }
    ExpandEachIs(ExpandTrimmed, TermTexts(terms), Products(terms), []);
  }

  function ReadProducts(terms: seq<Spaced>): (lists: seq<seq<string>>)
    ensures |lists| == |terms|
    ensures forall k :: 0 <= k < |terms| && PiecesRead(terms[k].pieces) ==> lists[k] == Names(terms[k].pieces)
  {
    seq(|terms|, k requires 0 <= k < |terms| =>
      if PiecesRead(terms[k].pieces) then Names(terms[k].pieces) else [])
  }

  lemma SpacedAreDecided(terms: seq<Spaced>)
    requires ValidTerms(terms)
    ensures EachDecided(ExpandTrimmed, TermTexts(terms), ReadProducts(terms))
  {
    var texts, names := TermTexts(terms), ReadProducts(terms);
    forall k | 0 <= k < |terms| ensures Expands(ExpandTrimmed, texts[k], names[k]) || Fails(ExpandTrimmed, texts[k]) {
      SpacedExpands(terms[k]);
    }
  }

  lemma TermsFail(terms: seq<Spaced>)
    requires ValidTerms(terms) && !TermsRead(terms)
    ensures ExpandEach(ExpandTrimmed, TermTexts(terms), []) == Err
  {
    SpacedAreDecided(terms);
    var bad :| 0 <= bad < |terms| && !PiecesRead(terms[bad].pieces);
    SpacedExpands(terms[bad]);
    ExpandEachFails(ExpandTrimmed, TermTexts(terms), ReadProducts(terms), bad, []);
  }

  lemma ExpandOfEach(pattern: string, texts: seq<string>, names: Outcome<seq<string>>)
    requires SplitTopFrom(pattern, 0, "") == texts && ExpandEach(ExpandTrimmed, texts, []) == names
    ensures Expand(pattern) == WithoutEmpty(names)
  {}

  /** A comma-separated list of terms expands to their products in order, or fails if some range
      in it does not read. */
  lemma ExpandMeans(terms: seq<Spaced>)
    requires terms != [] && ValidTerms(terms)
    ensures Expand(PatternText(terms)) == Meaning(terms)
  {
    SplitTopTerms(terms);
    if TermsRead(terms) {
      TermsExpandEach(terms);
      ExpandOfEach(PatternText(terms), TermTexts(terms), Capped([], Concat(Products(terms))));
    } else {
      TermsFail(terms);
      ExpandOfEach(PatternText(terms), TermTexts(terms), Err);
    }
  }

  /** What the numbers of a range may look like: digits, perhaps after a plus. */
  lemma NumberIsRead(digits: string)
    requires digits != [] && AllDigits(digits)
    ensures ParseU64(digits) == (if Numeral(digits) <= U64_MAX then Some(Numeral(digits)) else None)
    ensures ParseU64("+" + digits) == ParseU64(digits)
  {
    assert ("+" + digits)[1..] == digits && IsDigit(digits[0]);
  }

  lemma OtherIsNotRead(s: string)
    requires s == "" || s == "+" || (s[0] != '+' && !IsDigit(s[0])) || !AllDigits(s[1..])
    ensures ParseU64(s) == None
  {
    if s != "" && s[0] != '+' {
      assert forall k :: 0 <= k < |s| - 1 ==> s[1..][k] == s[k + 1];
    }
  }
}
