/** Laying out a row or a header from parsed tokens (`format_engine.rs`): padded
    columns, and `|`-delimited fields. Strings are taken as sequences of characters. */
module RowLayout {
  import opened Text
  import opened FormatEngine

  const DELIMITER := '|'

  function Min(a: nat, b: nat): nat {
    if a < b then a else b
  }

  function Max(a: nat, b: nat): nat {
    if a < b then b else a
  }

  predicate Blank(s: string) {
    forall k :: 0 <= k < |s| ==> s[k] == ' '
  }

  function Spaces(n: nat): string {
    seq(n, _ => ' ')
  }

  function Truncated(value: string, f: Field): (r: string)
    ensures r <= value && |r| == if f.truncate.Some? then Min(|value|, f.truncate.value) else |value|
  {
    if f.truncate.Some? && |value| > f.truncate.value then value[..f.truncate.value] else value
  }

  /** `format_field`: truncate, then pad to the width on the side the alignment leaves free. */
  function Cell(value: string, f: Field): (r: string)
    ensures |r| == Max(f.width, if f.truncate.Some? then Min(|value|, f.truncate.value) else |value|)
    ensures var s := Truncated(value, f);
            if f.rightAlign then r[|r| - |s|..] == s && Blank(r[..|r| - |s|]) else s <= r && Blank(r[|s|..])
  {
    var s := Truncated(value, f);
    if |s| >= f.width then s
    else if f.rightAlign then Spaces(f.width - |s|) + s
    else s + Spaces(f.width - |s|)
  }

  function Piece(t: Token, value: Field -> string): string {
    match t
    case FieldToken(f) => Cell(value(f), f)
    case Literal(text) => text
  }

  /** A line before its trailing blanks are trimmed. */
  function LineText(ts: seq<Token>, value: Field -> string): string {
    if ts == [] then ""
    else LineText(ts[..|ts| - 1], value) + Piece(ts[|ts| - 1], value)
  }

  /** What a row puts in a field, given the values of one record. */
  function RowValue(resolver: char -> string): Field -> string {
    (f: Field) => resolver(f.spec)
  }

  function HeaderValue(): Field -> string {
    (f: Field) => f.header
  }

  method FormatRow(ts: seq<Token>, resolver: char -> string) returns (out: string)
    ensures out == TrimEnd(LineText(ts, RowValue(resolver)))
  {
    out := "";
    for i := 0 to |ts|
      invariant out == LineText(ts[..i], RowValue(resolver))
    {
      assert ts[..i + 1][..i] == ts[..i];
      match ts[i]
      case FieldToken(field) => out := out + Cell(resolver(field.spec), field);
      case Literal(text) => out := out + text;
    }
    assert ts[..|ts|] == ts;
    out := TrimEnd(out);
  }

  method FormatHeader(ts: seq<Token>) returns (out: string)
    ensures out == TrimEnd(LineText(ts, HeaderValue()))
  {
    out := "";
    for i := 0 to |ts|
      invariant out == LineText(ts[..i], HeaderValue())
    {
      assert ts[..i + 1][..i] == ts[..i];
      match ts[i]
      case FieldToken(field) => out := out + Cell(field.header, field);
      case Literal(text) => out := out + text;
    }
    assert ts[..|ts|] == ts;
    out := TrimEnd(out);
  }

  // ----- columns line up

  /** Column `k` of a line starts where the text of the earlier tokens ends. */
  lemma {:induction false} ColumnStart(ts: seq<Token>, k: nat, value: Field -> string)
    requires k < |ts|
    ensures LineText(ts[..k], value) + Piece(ts[k], value) <= LineText(ts, value)
    decreases |ts|
  {
    var n := |ts| - 1;
    if k == n {
    } else {
      ColumnStart(ts[..n], k, value);
      assert ts[..n][..k] == ts[..k];
    }
  }

  predicate FixedWidth(f: Field) {
    f.truncate.Some? && f.truncate.value <= f.width
  }

  predicate AllFixed(ts: seq<Token>) {
    forall k :: 0 <= k < |ts| ==> ts[k].FieldToken? ==> FixedWidth(ts[k].field)
  }

  lemma {:induction false} FixedLineLength(ts: seq<Token>, v: Field -> string, w: Field -> string)
    requires AllFixed(ts)
    ensures |LineText(ts, v)| == |LineText(ts, w)|
  {
    if ts != [] {
      FixedLineLength(ts[..|ts| - 1], v, w);
    }
  }

  function WidestField(ts: seq<Token>): (w: nat)
    ensures forall k :: 0 <= k < |ts| && ts[k].FieldToken? ==> ts[k].field.width <= w
  {
    if ts == [] then 0
    else
      var w := WidestField(ts[..|ts| - 1]);
      match ts[|ts| - 1]
      case FieldToken(f) => Max(w, f.width)
      case Literal(_) => w
  }

  function ConstantResolver(value: string): char -> string {
    (c: char) => value
  }

  lemma LoosePieceGrows(t: Token, long: string)
    requires t.FieldToken? ==> t.field.width < |long|
    ensures var a := |Piece(t, RowValue(ConstantResolver("")))|;
            var b := |Piece(t, RowValue(ConstantResolver(long)))|;
            a <= b && (t.FieldToken? && !FixedWidth(t.field) ==> a < b)
  {}

  /** A value wider than every column makes any column that is not fixed wider. */
  lemma {:induction false} LooseLineGrows(ts: seq<Token>, long: string)
    requires forall k :: 0 <= k < |ts| && ts[k].FieldToken? ==> ts[k].field.width < |long|
    ensures var a := |LineText(ts, RowValue(ConstantResolver("")))|;
            var b := |LineText(ts, RowValue(ConstantResolver(long)))|;
            a <= b && (!AllFixed(ts) ==> a < b)
  {
    if ts != [] {
      LooseLineGrows(ts[..|ts| - 1], long);
      LoosePieceGrows(ts[|ts| - 1], long);
    }
  }

  /** Column `k` starts at one offset in every row, whatever the values, exactly
      when each field before it cuts its value to at most its width. */
  lemma ColumnsLineUp(ts: seq<Token>, k: nat)
    requires k <= |ts|
    ensures AllFixed(ts[..k])
       <==> forall r, q :: |LineText(ts[..k], RowValue(r))| == |LineText(ts[..k], RowValue(q))|
  {
    var before := ts[..k];
    if AllFixed(before) {
      forall r, q ensures |LineText(before, RowValue(r))| == |LineText(before, RowValue(q))| {
        FixedLineLength(before, RowValue(r), RowValue(q));
      }
    } else {
      LooseLineGrows(before, Spaces(WidestField(before) + 1));
    }
  }

  /** Then the header's column `k` starts at that offset too. */
  lemma HeaderLinesUp(ts: seq<Token>, k: nat, resolver: char -> string)
    requires k < |ts| && AllFixed(ts[..k])
    ensures |LineText(ts[..k], HeaderValue())| == |LineText(ts[..k], RowValue(resolver))|
    ensures LineText(ts[..k], HeaderValue()) + Piece(ts[k], HeaderValue()) <= LineText(ts, HeaderValue())
    ensures LineText(ts[..k], RowValue(resolver)) + Piece(ts[k], RowValue(resolver)) <= LineText(ts, RowValue(resolver))
  {
    FixedLineLength(ts[..k], HeaderValue(), RowValue(resolver));
    ColumnStart(ts, k, HeaderValue());
    ColumnStart(ts, k, RowValue(resolver));
  }

  // ----- delimited rows

  function FieldValues(ts: seq<Token>, value: Field -> string): seq<string> {
    if ts == [] then []
    else
      FieldValues(ts[..|ts| - 1], value)
      + (match ts[|ts| - 1] case FieldToken(f) => [value(f)] case Literal(_) => [])
  }

  function Delimited(values: seq<string>, trailing: bool): string {
    if values == [] then "" else Join(values, [DELIMITER]) + (if trailing then [DELIMITER] else [])
  }

  lemma {:induction false} JoinSnoc(parts: seq<string>, last: string, sep: string)
    ensures Join(parts + [last], sep) == if parts == [] then last else Join(parts, sep) + sep + last
  {
    if |parts| == 0 {
      assert parts + [last] == [last];
    } else {
      JoinSnoc(parts[1..], last, sep);
      assert (parts + [last])[1..] == parts[1..] + [last];
      if |parts| == 1 {
        assert parts[1..] == [];
      }
    }
  }

  method JoinFields(ts: seq<Token>, value: Field -> string, trailing: bool) returns (out: string)
    ensures out == Delimited(FieldValues(ts, value), trailing)
  {
    out := "";
    var seenField := false;
    for i := 0 to |ts|
      invariant out == Join(FieldValues(ts[..i], value), [DELIMITER])
      invariant seenField == (FieldValues(ts[..i], value) != [])
    {
      assert ts[..i + 1][..i] == ts[..i];
      if ts[i].FieldToken? {
        JoinSnoc(FieldValues(ts[..i], value), value(ts[i].field), [DELIMITER]);
        if seenField {
          out := out + [DELIMITER];
        }
        out := out + value(ts[i].field);
        seenField := true;
      } else {
        assert FieldValues(ts[..i + 1], value) == FieldValues(ts[..i], value);
      }
    }
    assert ts[..|ts|] == ts;
    if trailing && seenField {
      out := out + [DELIMITER];
    }
  }

  /** Splitting a delimited row on the delimiter gives back the field values exactly
      when there is a field (or a closing delimiter) and no value holds the delimiter. */
  lemma DelimitedRoundTrip(values: seq<string>, trailing: bool)
    ensures Split(Delimited(values, trailing), DELIMITER) == (if trailing then values + [""] else values)
       <==> (trailing || values != []) && NoneHolds(values, DELIMITER)
  {
    if !trailing {
      SplitJoin(values, DELIMITER);
      assert values != [] ==> Delimited(values, false) == Join(values, [DELIMITER]);
    } else {
      JoinSnoc(values, "", [DELIMITER]);
      assert values != [] ==> Delimited(values, true) == Join(values + [""], [DELIMITER]);
      SplitJoin(values + [""], DELIMITER);
      assert NoneHolds(values + [""], DELIMITER) <==> NoneHolds(values, DELIMITER) by {
        assert forall k :: 0 <= k < |values| ==> (values + [""])[k] == values[k];
      }
    }
  }

  lemma {:induction false} SameCellCount(ts: seq<Token>, v: Field -> string, w: Field -> string)
    ensures |FieldValues(ts, v)| == |FieldValues(ts, w)|
  {
    if ts != [] {
      SameCellCount(ts[..|ts| - 1], v, w);
    }
  }

  /** The header and every row of a parsable table split into the same number of cells. */
  lemma DelimitedTable(ts: seq<Token>, resolver: char -> string, trailing: bool)
    requires NoneHolds(FieldValues(ts, HeaderValue()), DELIMITER)
    requires NoneHolds(FieldValues(ts, RowValue(resolver)), DELIMITER)
    ensures |Split(Delimited(FieldValues(ts, HeaderValue()), trailing), DELIMITER)|
         == |Split(Delimited(FieldValues(ts, RowValue(resolver)), trailing), DELIMITER)|
  {
    SameCellCount(ts, HeaderValue(), RowValue(resolver));
    DelimitedRoundTrip(FieldValues(ts, HeaderValue()), trailing);
    DelimitedRoundTrip(FieldValues(ts, RowValue(resolver)), trailing);
  }
}
