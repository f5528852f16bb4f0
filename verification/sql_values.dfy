/** The printer of SQL value lists, and a reader of what it prints. */
module SqlValues {
  import opened JsonText

  // ---------- the printer ----------

  /** A value inside a literal: every quote is doubled. */
  function Doubled(s: string): string {
    if s == "" then "" else (if s[0] == '\'' then "''" else [s[0]]) + Doubled(s[1..])
  }

  lemma {:induction false} DoubledAppend(s: string, c: char)
    ensures Doubled(s + [c]) == Doubled(s) + if c == '\'' then "''" else [c]
  {
    if s == "" {
      assert (s + [c])[1..] == "";
    } else {
      assert (s + [c])[1..] == s[1..] + [c];
      DoubledAppend(s[1..], c);
    }
  }

  method DoubleSingleQuotes(s: string) returns (o: string)
    ensures o == Doubled(s)
  {
    o := "";
    for i := 0 to |s|
      invariant o == Doubled(s[..i])
    {
      assert s[..i + 1] == s[..i] + [s[i]];
      DoubledAppend(s[..i], s[i]);
      if s[i] == '\'' {
        o := o + "''";
      } else {
        o := o + [s[i]];
      }
    }
    assert s[..|s|] == s;
  }

  /** What is printed for a value; an empty one is printed as the text NULL. */
  function Shown(value: string): string {
    if value == "" then "NULL" else value
  }

  function Literal(value: string): string {
    "'" + Doubled(Shown(value)) + "'"
  }

  /** What follows the n-th literal: a row ends where n is a multiple of the number of fields. */
  function Delimiter(n: nat, fields: nat): string
    requires 0 < fields
  {
    if n % fields == 0 then "),(" else ","
  }

  /** The values so far, each with the delimiter behind it. */
  function ListText(values: seq<string>, fields: nat): string
    requires 0 < fields
  {
    if values == [] then "VALUES ("
    else
      var last := |values| - 1;
      ListText(values[..last], fields) + Literal(values[last]) + Delimiter(|values|, fields)
  }

  /** The list as it is returned: its last two characters are cut off. */
  function ValuesText(values: seq<string>, fields: nat): string
    requires values != [] ==> 0 < fields
  {
    if values == [] then "VALUES" else ListText(values, fields)[..|ListText(values, fields)| - 2]
  }

  lemma ListStep(values: seq<string>, i: nat, fields: nat)
    requires i < |values| && 0 < fields
    ensures ListText(values[..i + 1], fields) == ListText(values[..i], fields) + Literal(values[i]) + Delimiter(i + 1, fields)
    ensures 2 <= |ListText(values[..i + 1], fields)|
  {
    assert values[..i + 1][..i] == values[..i] && values[..i + 1][i] == values[i];
  }

  lemma Joined(a: string, text: string, d: string)
    ensures a + "'" + text + ("'" + d) == a + ("'" + text + "'") + d
  {}

  /** The counter of the values is a 32-bit int. */
  method ValuesString(values: seq<string>, fields: nat) returns (text: string)
    requires (values != [] ==> 0 < fields) && |values| < 0x7FFF_FFFF
    ensures text == ValuesText(values, fields)
  {
    hide Doubled, ListText, Delimiter;
    text := "VALUES (";
    EmptyList(fields);
    var index := 1;
    var delim := "";
    for i := 0 to |values|
      invariant index == i + 1 && 2 <= |text|
      invariant text == if fields == 0 then "VALUES (" else ListText(values[..i], fields)
    {
      ghost var before := text;
      ListStep(values, i, fields);
      delim := NextDelimiter(index, fields);
      index := index + 1;
      text := text + "'";
      if values[i] == "" {
        Null();
        text := text + "NULL";
      } else {
        var doubled := DoubleSingleQuotes(values[i]);
        text := text + doubled;
      }
      text := text + ("'" + delim);
      Joined(before, Doubled(Shown(values[i])), delim);
    }
    assert values[..|values|] == values;
    text := text[..|text| - 2];
  }

  method NextDelimiter(index: nat, fields: nat) returns (delim: string)
    requires 0 < fields
    ensures delim == Delimiter(index, fields)
  {
    delim := if index % fields == 0 then "),(" else ",";
  }

  lemma EmptyList(fields: nat)
    ensures 0 < fields ==> ListText([], fields) == "VALUES ("
    ensures "VALUES ("[..6] == "VALUES"
  {}

  lemma Null()
    ensures Doubled("NULL") == "NULL"
  {
    assert "NULL"[1..] == "ULL" && "ULL"[1..] == "LL" && "LL"[1..] == "L" && "L"[1..] == "";
  }

  // ---------- a reader of value lists ----------

  datatype Read = Read(value: string, next: nat) | Unterminated

  /** The rest of a quoted literal, behind what has been read of it; two quotes stand for one. */
  function Body(t: string, p: nat, acc: string): (r: Read)
    requires p <= |t|
    ensures r.Read? ==> p < r.next <= |t|
    decreases |t| - p
  {
    if p == |t| then Unterminated
    else if t[p] != '\'' then Body(t, p + 1, acc + [t[p]])
    else if p + 1 < |t| && t[p + 1] == '\'' then Body(t, p + 2, acc + "'")
    else Read(acc, p + 1)
  }

  datatype Table = Table(rows: seq<seq<string>>) | Malformed

  /** The rest of a list of rows, at a literal of the row that has been begun. */
  function ReadFrom(t: string, p: nat, row: seq<string>, rows: seq<seq<string>>): Table
    requires p <= |t|
    decreases |t| - p
  {
    if p == |t| || t[p] != '\'' then Malformed
    else
      match Body(t, p + 1, "")
      case Unterminated => Malformed
      case Read(value, q) =>
        if q == |t| then Malformed
        else if t[q] == ',' then ReadFrom(t, q + 1, row + [value], rows)
        else if t[q] != ')' then Malformed
        else if q + 1 == |t| then Table(rows + [row + [value]])
        else if q + 3 <= |t| && t[q + 1] == ',' && t[q + 2] == '(' then ReadFrom(t, q + 3, [], rows + [row + [value]])
        else Malformed
  }

  function ReadValues(t: string): Table {
    if "VALUES (" <= t then ReadFrom(t, 8, [], []) else Malformed
  }

  // ---------- what is printed is read ----------

  /** An empty value is shown as NULL, any other one as it is. */
  function ShownAll(values: seq<string>): (r: seq<string>)
    ensures |r| == |values| && forall i | 0 <= i < |r| :: r[i] == if values[i] == "" then "NULL" else values[i]
  {
    seq(|values|, i requires 0 <= i < |values| => Shown(values[i]))
  }

  function Flatten(rows: seq<seq<string>>): seq<string> {
    if rows == [] then [] else Flatten(rows[..|rows| - 1]) + rows[|rows| - 1]
  }

  predicate Widths(rows: seq<seq<string>>, fields: nat) {
    forall i | 0 <= i < |rows| :: |rows[i]| == fields
  }

  /** The last literal as it is returned, with what is left of its closing quote and delimiter. */
  function LastText(value: string, n: nat, fields: nat): string
    requires 0 < fields
  {
    "'" + Doubled(Shown(value)) + if n % fields == 0 then "')" else ""
  }

  /** The text from value i on, as it is returned. */
  function Tail(values: seq<string>, i: nat, fields: nat): string
    requires i < |values| && 0 < fields
    decreases |values| - i
  {
    if i + 1 == |values| then LastText(values[i], i + 1, fields)
    else Literal(values[i]) + Delimiter(i + 1, fields) + Tail(values, i + 1, fields)
  }

  lemma {:induction false} TailText(values: seq<string>, i: nat, fields: nat)
    requires i < |values| && 0 < fields
    ensures ValuesText(values, fields) == ListText(values[..i], fields) + Tail(values, i, fields)
    decreases |values| - i
  {
    ListStep(values, i, fields);
    hide ListText, Literal, Delimiter, LastText, ValuesText;
    if i + 1 == |values| {
      assert values[..i + 1] == values;
      LastCut(ListText(values[..i], fields), values[i], i + 1, fields);
      ValuesTextIs(values, fields);
    } else {
      TailText(values, i + 1, fields);
      Grouped(ListText(values[..i], fields), Literal(values[i]), Delimiter(i + 1, fields), Tail(values, i + 1, fields));
    }
  }

  lemma Grouped(a: string, b: string, c: string, d: string)
    ensures a + b + c + d == a + (b + c + d)
  {}

  lemma ValuesTextIs(values: seq<string>, fields: nat)
    requires values != [] && 0 < fields
    ensures 2 <= |ListText(values, fields)| && ValuesText(values, fields) == ListText(values, fields)[..|ListText(values, fields)| - 2]
  {}

  lemma LastCut(before: string, value: string, n: nat, fields: nat)
    requires 0 < fields
    ensures var all := before + Literal(value) + Delimiter(n, fields);
            2 <= |all| && all[..|all| - 2] == before + LastText(value, n, fields)
  {
    hide Doubled;
    var text := Doubled(Shown(value));
    if n % fields == 0 {
      assert before + Literal(value) + Delimiter(n, fields) == before + ("'" + text + "')") + ",(";
    } else {
      assert before + Literal(value) + Delimiter(n, fields) == before + ("'" + text) + "',";
    }
  }

  lemma {:induction false} BodyRead(t: string, p: nat, v: string, j: nat)
    requires j <= |v| && Has(t, p, Doubled(v[j..]))
    ensures p + |Doubled(v[j..])| <= |t|
    ensures Body(t, p, v[..j]) == Body(t, p + |Doubled(v[j..])|, v)
    decreases |v| - j
  {
    if j == |v| {
      assert v[..j] == v && v[j..] == "";
    } else {
      assert v[j..][0] == v[j] && v[j..][1..] == v[j + 1..] && v[..j + 1] == v[..j] + [v[j]];
      var first := if v[j] == '\'' then "''" else [v[j]];
      HasSplit(t, p, first, Doubled(v[j + 1..]));
      assert t[p] == t[p..p + |first|][0] == v[j];
      if v[j] == '\'' { assert t[p + 1] == t[p..p + 2][1]; }
      BodyRead(t, p + |first|, v, j + 1);
    }
  }

  lemma LiteralRead(t: string, p: nat, value: string)
    requires Has(t, p, Literal(value))
    requires p + |Literal(value)| == |t| || t[p + |Literal(value)|] != '\''
    ensures t[p] == '\'' && Body(t, p + 1, "") == Read(Shown(value), p + |Literal(value)|)
  {
    var v := Shown(value);
    assert Literal(value) == "'" + (Doubled(v) + "'");
    HasSplit(t, p, "'", Doubled(v) + "'");
    HasSplit(t, p + 1, Doubled(v), "'");
    assert v[0..] == v && v[..0] == "";
    BodyRead(t, p + 1, v, 0);
    var q := p + 1 + |Doubled(v)|;
    assert t[q] == t[q..q + 1][0] && t[p] == t[p..p + 1][0];
  }

  lemma LiteralOpen(t: string, p: nat, value: string)
    requires Has(t, p, "'" + Doubled(Shown(value))) && p + 1 + |Doubled(Shown(value))| == |t|
    ensures t[p] == '\'' && Body(t, p + 1, "") == Unterminated
  {
    var v := Shown(value);
    HasSplit(t, p, "'", Doubled(v));
    assert v[0..] == v && v[..0] == "";
    assert t[p] == t[p..p + 1][0];
    hide Doubled, Shown, Has;
    BodyRead(t, p + 1, v, 0);
  }

  lemma ShownMore(values: seq<string>, i: nat)
    requires i < |values|
    ensures ShownAll(values[..i + 1]) == ShownAll(values[..i]) + [Shown(values[i])]
    ensures i + 1 == |values| ==> values[..i + 1] == values
  {}

  lemma FlattenMore(rows: seq<seq<string>>, row: seq<string>)
    ensures Flatten(rows + [row]) == Flatten(rows) + row
  {
    assert (rows + [row])[..|rows|] == rows;
  }

  lemma AtLeast(a: int, b: int, n: nat)
    requires a > b
    ensures a * n >= b * n + n
  {
    assert a * n == b * n + (a - b) * n;
    assert (a - b - 1) * n >= 0;
    assert (a - b) * n == (a - b - 1) * n + n;
  }

  /** Quotient and remainder are determined by the number they make. */
  lemma Remainder(a: nat, q: int, r: nat, n: nat)
    requires r < n && a == q * n + r
    ensures a % n == r
  {
    var q', r' := a / n, a % n;
    assert a == q' * n + r';
    if q > q' { AtLeast(q, q', n); } else if q < q' { AtLeast(q', q, n); }
  }

  lemma NextColumn(i: nat, fields: nat)
    requires 0 < fields
    ensures (i + 1) % fields == if i % fields + 1 == fields then 0 else i % fields + 1
  {
    var q, r := i / fields, i % fields;
    assert i == q * fields + r;
    if r + 1 == fields {
      assert (q + 1) * fields == q * fields + fields;
      Remainder(i + 1, q + 1, 0, fields);
    } else {
      Remainder(i + 1, q, r + 1, fields);
    }
  }

  /** The reading of a table that the values have been printed to. */
  predicate Recovers(table: Table, values: seq<string>, fields: nat)
    requires 0 < fields
  {
    match table
    case Malformed => |values| % fields != 0
    case Table(rows) => |values| % fields == 0 && Flatten(rows) == ShownAll(values) && Widths(rows, fields)
  }

  /** The first i values have been read into full rows and the row that has been begun. */
  predicate Progress(values: seq<string>, i: nat, fields: nat, row: seq<string>, rows: seq<seq<string>>)
    requires i <= |values| && 0 < fields
  {
    |row| == i % fields && Flatten(rows) + row == ShownAll(values[..i]) && Widths(rows, fields)
  }

  /** The row that has been begun after one more value, which may complete it. */
  function RowAfter(row: seq<string>, value: string, full: bool): seq<string> {
    if full then [] else row + [Shown(value)]
  }

  function RowsAfter(rows: seq<seq<string>>, row: seq<string>, value: string, full: bool): seq<seq<string>> {
    if full then rows + [row + [Shown(value)]] else rows
  }

  lemma ProgressStep(values: seq<string>, i: nat, fields: nat, row: seq<string>, rows: seq<seq<string>>)
    requires i < |values| && 0 < fields && Progress(values, i, fields, row, rows)
    ensures var full := (i + 1) % fields == 0; var rows' := RowsAfter(rows, row, values[i], full);
            && Progress(values, i + 1, fields, RowAfter(row, values[i], full), rows')
            && (i + 1 == |values| ==> Recovers(if full then Table(rows') else Malformed, values, fields))
  {
    hide Shown, ShownAll, Flatten;
    var row' := row + [Shown(values[i])];
    ShownMore(values, i);
    FlattenMore(rows, row');
    NextColumn(i, fields);
    assert Flatten(rows) + row' == Flatten(rows) + row + [Shown(values[i])];
  }

  lemma {:induction false} TailRead(values: seq<string>, i: nat, fields: nat, t: string, p: nat, row: seq<string>, rows: seq<seq<string>>)
    requires i < |values| && 0 < fields && p <= |t| && t[p..] == Tail(values, i, fields)
    requires Progress(values, i, fields, row, rows)
    ensures Recovers(ReadFrom(t, p, row, rows), values, fields)
    decreases |values| - i
  {
    TailIs(values, i, fields);
    ProgressStep(values, i, fields, row, rows);
    hide LastText, Delimiter, Tail, Literal, ReadFrom, Progress, Recovers, RowAfter, RowsAfter;
    var full := (i + 1) % fields == 0;
    if i + 1 == |values| {
      LastRead(values[i], i + 1, fields, t, p, row, rows);
    } else {
      var q := RowRead(t, p, row, rows, values[i], i + 1, fields, Tail(values, i + 1, fields));
      TailRead(values, i + 1, fields, t, q, RowAfter(row, values[i], full), RowsAfter(rows, row, values[i], full));
    }
  }

  /** A literal and its delimiter have been read; the reader goes on at q. */
  lemma RowRead(t: string, p: nat, row: seq<string>, rows: seq<seq<string>>, value: string, n: nat, fields: nat, tail: string)
    returns (q: nat)
    requires p <= |t| && 0 < fields && t[p..] == Literal(value) + Delimiter(n, fields) + tail
    ensures p < q <= |t| && t[q..] == tail
    ensures var full := n % fields == 0;
            ReadFrom(t, p, row, rows) == ReadFrom(t, q, RowAfter(row, value, full), RowsAfter(rows, row, value, full))
  {
    var full := n % fields == 0;
    var end := p + |Literal(value)|;
    DelimiterIs(n, fields);
    if full { MiddleRead(t, p, value, "),(", tail); } else { MiddleRead(t, p, value, ",", tail); }
    hide Shown, Delimiter, Body, Literal, ReadFrom, RowAfter, RowsAfter;
    ReadOn(t, p, row, rows, value, end);
    q := if full then end + 3 else end + 1;
  }

  lemma TailIs(values: seq<string>, i: nat, fields: nat)
    requires i < |values| && 0 < fields
    ensures Tail(values, i, fields) ==
            if i + 1 == |values| then LastText(values[i], i + 1, fields)
            else Literal(values[i]) + Delimiter(i + 1, fields) + Tail(values, i + 1, fields)
  {}

  lemma ReadOn(t: string, p: nat, row: seq<string>, rows: seq<seq<string>>, value: string, q: nat)
    requires p < q < |t| && t[p] == '\'' && Body(t, p + 1, "") == Read(Shown(value), q)
    ensures t[q] == ',' ==>
            ReadFrom(t, p, row, rows) == ReadFrom(t, q + 1, RowAfter(row, value, false), RowsAfter(rows, row, value, false))
    ensures t[q] == ')' && q + 3 <= |t| && t[q + 1] == ',' && t[q + 2] == '(' ==>
            ReadFrom(t, p, row, rows) == ReadFrom(t, q + 3, RowAfter(row, value, true), RowsAfter(rows, row, value, true))
  {}

  lemma DelimiterIs(n: nat, fields: nat)
    requires 0 < fields
    ensures Delimiter(n, fields) == if n % fields == 0 then "),(" else ","
  {}

  lemma MiddleRead(t: string, p: nat, value: string, d: string, tail: string)
    requires p <= |t| && t[p..] == Literal(value) + d + tail && (d == "," || d == "),(")
    ensures var q := p + |Literal(value)|;
            && p < q && q + |d| <= |t| && t[p] == '\'' && Body(t, p + 1, "") == Read(Shown(value), q)
            && t[q] == d[0] && (d == "),(" ==> t[q + 1] == ',' && t[q + 2] == '(')
            && t[q + |d|..] == tail
  {
    hide Doubled, Shown;
    var q := p + |Literal(value)|;
    assert t[p..q] == t[p..][..q - p] == Literal(value);
    assert t[q..q + |d|] == t[p..][q - p..q - p + |d|] == d;
    assert t[q + |d|..] == t[p..][q - p + |d|..];
    forall k | 0 <= k < |d| ensures t[q + k] == d[k] { assert t[q + k] == t[q..q + |d|][k]; }
    LiteralRead(t, p, value);
  }

  lemma LastRead(value: string, n: nat, fields: nat, t: string, p: nat, row: seq<string>, rows: seq<seq<string>>)
    requires 0 < fields && p <= |t| && t[p..] == LastText(value, n, fields)
    ensures ReadFrom(t, p, row, rows) == if n % fields == 0 then Table(RowsAfter(rows, row, value, true)) else Malformed
  {
    if n % fields == 0 {
      var q := p + |Literal(value)|;
      assert LastText(value, n, fields) == Literal(value) + ")";
      assert t[p..q] == t[p..][..q - p] == Literal(value);
      assert t[q..] == t[p..][q - p..] == ")";
      assert t[q] == t[q..][0];
      hide Doubled, Shown;
      LiteralRead(t, p, value);
    } else {
      assert LastText(value, n, fields) == "'" + Doubled(Shown(value));
      assert t[p..|t|] == t[p..];
      hide Doubled, Shown;
      LiteralOpen(t, p, value);
    }
  }

  /** A reader of the printed list finds rows exactly when the list is not empty and its length is a
      multiple of the number of fields; then every row has that many values, and the values are those
      printed, in order and whatever they contain, empty ones as NULL. */
  lemma ValuesReadBack(values: seq<string>, fields: nat)
    requires values != [] ==> 0 < fields
    ensures ReadValues(ValuesText(values, fields)).Table? <==> values != [] && |values| % fields == 0
    ensures match ReadValues(ValuesText(values, fields))
            case Malformed => true
            case Table(rows) => Flatten(rows) == ShownAll(values) && Widths(rows, fields)
  {
    if values != [] {
      var t := ValuesText(values, fields);
      TailText(values, 0, fields);
      assert values[..0] == [];
      assert t[8..] == Tail(values, 0, fields);
      hide ValuesText, Tail, ReadFrom;
      TailRead(values, 0, fields, t, 8, [], []);
    }
  }

  // ---------- field lists and statements ----------

  function FieldsText(fields: seq<string>): string {
    if fields == [] then ""
    else
      var last := |fields| - 1;
      FieldsText(fields[..last]) + (if last == 0 then "" else ",") + fields[last]
  }

  method FieldsString(fields: seq<string>) returns (text: string)
    ensures text == FieldsText(fields)
  {
    text := "";
    var delim := "";
    for i := 0 to |fields|
      invariant text == FieldsText(fields[..i]) && delim == if i == 0 then "" else ","
    {
      assert fields[..i + 1][..i] == fields[..i] && fields[..i + 1][i] == fields[i];
      text := text + (delim + fields[i]);
      delim := ",";
    }
    assert fields[..|fields|] == fields;
  }

  method InsertStatement(table: string, fields: seq<string>, values: seq<string>) returns (text: string)
    requires (values != [] ==> fields != []) && |values| < 0x7FFF_FFFF
    ensures text == "INSERT INTO " + table + "(" + FieldsText(fields) + ") " + ValuesText(values, |fields|)
  {
    var names := FieldsString(fields);
    var rows := ValuesString(values, |fields|);
    text := "INSERT INTO " + table + "(" + names + ") " + rows;
  }

  /** A text cut at its commas, from p on, behind the pieces and the part of a piece already cut. */
  function Pieces(t: string, p: nat, part: string, done: seq<string>): seq<string>
    requires p <= |t|
    decreases |t| - p
  {
    if p == |t| then done + [part]
    else if t[p] == ',' then Pieces(t, p + 1, "", done + [part])
    else Pieces(t, p + 1, part + [t[p]], done)
  }

  function Commas(t: string): nat {
    if t == "" then 0 else Commas(t[..|t| - 1]) + if t[|t| - 1] == ',' then 1 else 0
  }

  lemma {:induction false} CommasJoined(a: string, b: string)
    ensures Commas(a + b) == Commas(a) + Commas(b)
  {
    if b == "" {
      assert a + b == a;
    } else {
      var last := |b| - 1;
      assert (a + b)[..|a + b| - 1] == a + b[..last];
      CommasJoined(a, b[..last]);
    }
  }

  lemma {:induction false} PiecesCounted(t: string, p: nat, part: string, done: seq<string>)
    requires p <= |t|
    ensures |Pieces(t, p, part, done)| + Commas(t[..p]) == |done| + 1 + Commas(t)
    decreases |t| - p
  {
    if p == |t| {
      assert t[..p] == t;
    } else {
      assert t[..p + 1][..p] == t[..p];
      if t[p] == ',' { PiecesCounted(t, p + 1, "", done + [part]); } else { PiecesCounted(t, p + 1, part + [t[p]], done); }
    }
  }

  predicate CommaFree(fields: seq<string>) {
    forall i | 0 <= i < |fields| :: Commas(fields[i]) == 0
  }

  lemma {:induction false} FieldCommas(fields: seq<string>)
    requires fields != []
    ensures Commas(FieldsText(fields)) >= |fields| - 1
    ensures Commas(FieldsText(fields)) == |fields| - 1 <==> CommaFree(fields)
    decreases |fields|
  {
    var last := |fields| - 1;
    var before := fields[..last];
    if last == 0 {
      assert FieldsText(fields) == fields[0] by { assert before == []; }
    } else {
      FieldCommas(before);
      assert Commas(",") == 1;
      CommasJoined(FieldsText(before), ",");
      CommasJoined(FieldsText(before) + ",", fields[last]);
      assert CommaFree(fields) <==> CommaFree(before) && Commas(fields[last]) == 0 by {
        forall i | 0 <= i < last ensures before[i] == fields[i] {}
      }
    }
  }

  lemma {:induction false} PartRead(t: string, p: nat, f: string, j: nat, done: seq<string>)
    requires j <= |f| && Commas(f) == 0 && Has(t, p, f)
    ensures p + j <= |t| && Pieces(t, p, "", done) == Pieces(t, p + j, f[..j], done)
    decreases j
  {
    if j > 0 {
      PartRead(t, p, f, j - 1, done);
      assert t[p + j - 1] == t[p..p + |f|][j - 1];
      NoComma(f, j - 1);
      assert f[..j] == f[..j - 1] + [f[j - 1]];
    }
  }

  lemma {:induction false} NoComma(f: string, j: nat)
    requires Commas(f) == 0 && j < |f|
    ensures f[j] != ','
  {
    if j < |f| - 1 { NoComma(f[..|f| - 1], j); }
  }

  lemma {:induction false} FieldsRead(t: string, fields: seq<string>)
    requires fields != [] && CommaFree(fields) && FieldsText(fields) <= t
    ensures var last := |fields| - 1; var p := |FieldsText(fields)| - |fields[last]|;
            Has(t, p, fields[last]) && Pieces(t, 0, "", []) == Pieces(t, p, "", fields[..last])
    decreases |fields|
  {
    var last := |fields| - 1;
    var text := FieldsText(fields);
    var p := |text| - |fields[last]|;
    assert t[p..p + |fields[last]|] == text[p..];
    if last > 0 {
      var before := fields[..last];
      assert FieldsText(before) <= text;
      FieldsRead(t, before);
      var q := |FieldsText(before)| - |before[last - 1]|;
      PartRead(t, q, before[last - 1], |before[last - 1]|, before[..last - 1]);
      assert t[p - 1] == text[p - 1] == ',';
      assert before[last - 1][..|before[last - 1]|] == before[last - 1];
      assert before[..last - 1] + [before[last - 1]] == before;
    } else {
      assert FieldsText(fields[..0]) == "";
    }
  }

  /** Cut at its commas, a field list gives back the names exactly when no name has a comma. */
  lemma FieldsReadBack(fields: seq<string>)
    requires fields != []
    ensures Pieces(FieldsText(fields), 0, "", []) == fields <==> CommaFree(fields)
  {
    var t, last := FieldsText(fields), |fields| - 1;
    PiecesCounted(t, 0, "", []);
    assert t[..0] == "";
    FieldCommas(fields);
    if CommaFree(fields) {
      FieldsRead(t, fields);
      var f := fields[last];
      PartRead(t, |t| - |f|, f, |f|, fields[..last]);
      assert f[..|f|] == f && fields[..last] + [f] == fields;
    }
  }
}
