/** A reader of whole INSERT statements, and what it recovers of a printed one. */
module SqlStatements {
  import opened SqlValues

  datatype Statement = Statement(table: string, fields: seq<string>, rows: seq<seq<string>>) | NoStatement

  /** The first place of c at or behind p, or the end. */
  function Until(t: string, p: nat, c: char): (i: nat)
    requires p <= |t|
    ensures p <= i <= |t| && c !in t[p..i] && (i < |t| ==> t[i] == c)
    decreases |t| - p
  {
    if p == |t| || t[p] == c then p else Until(t, p + 1, c)
  }

  /** The table stands before the first '(', the fields before the next ')'. */
  function ReadInsert(t: string): Statement {
    if !("INSERT INTO " <= t) then NoStatement
    else
      var i := Until(t, 12, '(');
      if i == |t| then NoStatement
      else
        var j := Until(t, i + 1, ')');
        if j + 2 > |t| || t[j + 1] != ' ' then NoStatement
        else
          match ReadValues(t[j + 2..])
          case Malformed => NoStatement
          case Table(rows) => Statement(t[12..i], Pieces(t[i + 1..j], 0, "", []), rows)
  }

  lemma {:induction false} UntilIs(t: string, p: nat, word: string, c: char)
    requires p + |word| < |t| && t[p..p + |word|] == word && t[p + |word|] == c
    ensures Until(t, p, c) <= p + |word|
    ensures Until(t, p, c) == p + |word| <==> c !in word
    decreases |word|
  {
    if word != "" {
      assert t[p] == t[p..p + |word|][0];
      assert t[p + 1..p + 1 + |word[1..]|] == word[1..] && word == [word[0]] + word[1..];
      UntilIs(t, p + 1, word[1..], c);
    }
  }

  /** Joined by commas, the pieces of a text give back the text. */
  lemma {:induction false} PiecesJoined(t: string, p: nat, part: string, done: seq<string>)
    requires p <= |t|
    ensures FieldsText(Pieces(t, p, part, done)) == FieldsText(done + [part]) + t[p..]
    decreases |t| - p
  {
    if p < |t| {
      assert t[p..] == [t[p]] + t[p + 1..];
      if t[p] == ',' {
        PiecesJoined(t, p + 1, "", done + [part]);
        OneMore(done + [part], "");
      } else {
        PiecesJoined(t, p + 1, part + [t[p]], done);
        OneMore(done, part + [t[p]]);
        OneMore(done, part);
      }
    }
  }

  lemma OneMore(fields: seq<string>, f: string)
    ensures FieldsText(fields + [f]) == FieldsText(fields) + (if fields == [] then "" else ",") + f
  {
    assert (fields + [f])[..|fields|] == fields;
  }

  lemma FieldsOfText(fields: seq<string>, text: string)
    requires Pieces(text, 0, "", []) == fields
    ensures FieldsText(fields) == text
  {
    PiecesJoined(text, 0, "", []);
    assert FieldsText([""]) == "" by { OneMore([], ""); assert [] + [""] == [""]; }
  }

  /** Where the parts of a statement stand. */
  lemma Parts(t: string, table: string, names: string, rows: string)
    requires t == "INSERT INTO " + table + "(" + names + ") " + rows
    ensures var i := 12 + |table|; var j := i + 1 + |names|;
            && "INSERT INTO " <= t && i < j && j + 2 <= |t|
            && t[12..i] == table && t[i] == '(' && t[i + 1..j] == names && t[j] == ')' && t[j + 1] == ' ' && t[j + 2..] == rows
  {
    var i := 12 + |table|;
    var j := i + 1 + |names|;
    var head := "INSERT INTO " + table;
    assert t == head + ("(" + names + ") " + rows);
    assert head[12..] == table;
    assert t[..i] == head;
    assert t == (head + "(") + (names + ") " + rows);
    assert t == (head + "(" + names) + (") " + rows);
    assert t == (head + "(" + names + ") ") + rows;
  }

  lemma Read(t: string)
    requires ReadInsert(t).Statement?
    ensures var r := ReadInsert(t); var i := Until(t, 12, '('); var j := Until(t, i + 1, ')');
            12 <= i < j < |t| && r.table == t[12..i] && r.fields == Pieces(t[i + 1..j], 0, "", [])
  {
    hide Until, Pieces, ReadValues;
  }

  lemma ReadWhole(t: string, table: string, names: string, rows: string)
    requires t == "INSERT INTO " + table + "(" + names + ") " + rows && '(' !in table && ')' !in names
    ensures ReadInsert(t) ==
            match ReadValues(rows)
            case Malformed => NoStatement
            case Table(read) => Statement(table, Pieces(names, 0, "", []), read)
  {
    hide Until, Pieces, ReadValues;
    Parts(t, table, names, rows);
    UntilIs(t, 12, table, '(');
    UntilIs(t, 12 + |table| + 1, names, ')');
  }

  /** A table or a field that contains a bracket is cut short. */
  lemma CutShort(t: string, table: string, fields: seq<string>, rows: string)
    requires t == "INSERT INTO " + table + "(" + FieldsText(fields) + ") " + rows
    requires '(' in table || ')' in FieldsText(fields)
    ensures var r := ReadInsert(t); !(r.Statement? && r.table == table && r.fields == fields)
  {
    hide Until, Pieces, ReadValues, FieldsText, ReadInsert;
    var names := FieldsText(fields);
    Parts(t, table, names, rows);
    UntilIs(t, 12, table, '(');
    UntilIs(t, 12 + |table| + 1, names, ')');
    if ReadInsert(t).Statement? {
      Read(t);
      var i := Until(t, 12, '(');
      var cut := t[i + 1..Until(t, i + 1, ')')];
      if Pieces(cut, 0, "", []) == fields { FieldsOfText(fields, cut); }
    }
  }

  /** A printed statement of whole rows gives back its table, its fields and its values exactly when the
      table has no '(' and no field has a comma or a ')'. */
  lemma InsertReadBack(table: string, fields: seq<string>, values: seq<string>)
    requires fields != [] && values != [] && |values| % |fields| == 0
    ensures var r := ReadInsert("INSERT INTO " + table + "(" + FieldsText(fields) + ") " + ValuesText(values, |fields|));
            (&& r.Statement? && r.table == table && r.fields == fields
             && Flatten(r.rows) == ShownAll(values) && Widths(r.rows, |fields|))
            <==> '(' !in table && CommaFree(fields) && ')' !in FieldsText(fields)
  {
    hide FieldsText, ValuesText, Pieces, ReadValues, ReadInsert, Flatten, ShownAll, Widths, CommaFree;
    var names, rows := FieldsText(fields), ValuesText(values, |fields|);
    var t := "INSERT INTO " + table + "(" + names + ") " + rows;
    if '(' in table || ')' in names {
      CutShort(t, table, fields, rows);
    } else {
      ReadWhole(t, table, names, rows);
      ValuesReadBack(values, |fields|);
      FieldsReadBack(fields);
    }
  }
}
