/**
 * The trip DAO's pure parts (app/persistence/dao.py): the row acceptance rule of `find_all_valid`
 * and the text of the INSERT and UPDATE statements it sends.
 */
module TripDao {
  import opened Wrappers
  import opened Seqs
  import opened Text
  import opened TripModel

  // ---------------------------------------------------------------------------------------------
  // Row validation
  // ---------------------------------------------------------------------------------------------

  /** `\s` on ASCII: space, tab, line feed, carriage return, vertical tab, form feed. */
  predicate IsSpace(c: char) {
    c == ' ' || c == '\t' || c == '\n' || c == '\r' || c == '\U{000B}' || c == '\U{000C}'
  }

  /** The class `[A-Za-z\s]`. */
  predicate IsDestinationChar(c: char) {
    'A' <= c <= 'Z' || 'a' <= c <= 'z' || IsSpace(c)
  }

  /** A set, non-empty destination made only of letters and whitespace. */
  predicate IsValidDestination(d: Option<string>) {
    d.Some? && |d.value| > 0 && forall i :: 0 <= i < |d.value| ==> IsDestinationChar(d.value[i])
  }

  /**
   * The acceptance rule for a fetched row: valid destination, price at least 0, party size at least
   * 0. An accepted trip's income can be computed and is not negative.
   */
  function IsValidTrip(t: Trip): (ok: bool)
    ensures ok ==> Income(t).Success? && Income(t).value >= 0.0
  {
    && IsValidDestination(t.destination)
    && t.price.Some? && t.price.value >= 0.0
    && t.numOfPeople.Some? && t.numOfPeople.value >= 0
  }

  /**
   * The loop of `find_all_valid` over the fetched rows: accepted rows are kept in order, rejected
   * rows are only logged, so no row makes the batch fail.
   */
  method FindAllValid(rows: seq<Trip>) returns (valid: seq<Trip>)
    ensures valid == Filter(rows, IsValidTrip)
    ensures forall t :: t in valid <==> t in rows && IsValidTrip(t)
    ensures forall t :: multiset(valid)[t] == if IsValidTrip(t) then multiset(rows)[t] else 0
    ensures IsSubsequence(valid, rows)
  {
    valid := [];
    for i := 0 to |rows|
      invariant valid == Filter(rows[..i], IsValidTrip)
    {
      assert rows[..i + 1][..i] == rows[..i];
      if IsValidTrip(rows[i]) {
        valid := valid + [rows[i]];
      }
    }
    assert rows[..|rows|] == rows;
    FilterMembers(rows, IsValidTrip);
    FilterCount(rows, IsValidTrip);
    FilterIsSubsequence(rows, IsValidTrip);
  }

  /** Every accepted trip has a price, so its income can be computed and is not negative. */
  lemma ValidTripsHaveIncome(rows: seq<Trip>)
    ensures forall t :: t in Filter(rows, IsValidTrip) ==> Income(t).Success? && Income(t).value >= 0.0
  {
    FilterMembers(rows, IsValidTrip);
  }

  // ---------------------------------------------------------------------------------------------
  // SQL text
  // ---------------------------------------------------------------------------------------------

  /**
   * A column value as the DAO sees it. Decimals, dates and datetimes carry the text `str()` gives
   * for them; the other values are rendered here.
   */
  datatype SqlValue =
    | NoneValue
    | IntValue(i: int)
    | DecimalValue(decimalText: string)
    | StrValue(s: string)
    | DateValue(dateText: string)
    | DateTimeValue(dateTimeText: string)

  /** A field of an entity: its attribute name and its value, in declaration order. */
  type Field = (string, SqlValue)

  /** The attribute names of a `Trip`, in declaration order. */
  const TripFieldNames: seq<string> := ["_id", "_destination", "_price", "_num_of_people", "_agency_id"]

  /**
   * `_to_str`: text, dates and datetimes between single quotes, as they are; anything else as
   * `str()` writes it. Text without quotes or backslashes reads back as the one literal it is, and a
   * non-negative integer as its value.
   */
  function ToStr(v: SqlValue): (r: string)
    ensures v.StrValue? && '\'' !in v.s && '\\' !in v.s ==> ReadLiteral(r) == Some((v.s, ""))
    ensures v.IntValue? && v.i >= 0 ==> AllDigits(r) && ParseNat(r) == v.i
  {
    match v
    case StrValue(s) =>
      QuotedReadsBack(s);
      "'" + s + "'"
    case DateValue(text) => "'" + text + "'"
    case DateTimeValue(text) => "'" + text + "'"
    case NoneValue => "None"
    case IntValue(i) =>
      if i >= 0 then
        ParseNatToString(i);
        IntToString(i)
      else
        IntToString(i)
    case DecimalValue(text) => text
  }

  /** Text without quotes or backslashes between two quotes is read as one literal holding it. */
  lemma QuotedReadsBack(s: string)
    ensures '\'' !in s && '\\' !in s ==> ReadLiteral("'" + s + "'") == Some((s, ""))
  {
    if '\'' !in s && '\\' !in s {
      assert ("'" + s + "'")[1..] == s + "'" + "";
      ReadQuotedPlain(s, "");
    }
  }

  /**
   * What a backslash escape stands for inside a MySQL string literal in the default SQL mode:
   * `\0`, `\b`, `\n`, `\r`, `\t` and `\Z` are control characters, `\%` and `\_` keep their
   * backslash, and any other escaped character stands for itself.
   */
  function Unescape(c: char): string {
    match c
    case '0' => "\0"
    case 'b' => "\U{0008}"
    case 'n' => "\n"
    case 'r' => "\r"
    case 't' => "\t"
    case 'Z' => "\U{001A}"
    case '%' => "\\%"
    case '_' => "\\_"
    case _ => [c]
  }

  /**
   * How MySQL, in its default SQL mode, reads the rest of a single-quoted literal: a backslash
   * escapes the next character, `''` stands for one quote and a lone `'` closes the literal. Gives
   * the value and the text after the closing quote, or `None` when the literal is unclosed.
   */
  function ReadQuoted(s: string): Option<(string, string)> {
    if s == [] then None
    else if s[0] == '\\' then
      if |s| < 2 then None
      else
        match ReadQuoted(s[2..])
        case None => None
        case Some(p) => Some((Unescape(s[1]) + p.0, p.1))
    else if s[0] == '\'' && |s| >= 2 && s[1] == '\'' then
      match ReadQuoted(s[2..])
      case None => None
      case Some(p) => Some(("'" + p.0, p.1))
    else if s[0] == '\'' then Some(("", s[1..]))
    else
      match ReadQuoted(s[1..])
      case None => None
      case Some(p) => Some(([s[0]] + p.0, p.1))
  }

  /** A single-quoted SQL literal at the start of `s`: its value and the text after it. */
  function ReadLiteral(s: string): Option<(string, string)> {
    if s != [] && s[0] == '\'' then ReadQuoted(s[1..]) else None
  }

  lemma {:induction false} ReadQuotedPlain(x: string, rest: string)
    requires '\'' !in x && '\\' !in x
    requires rest == [] || rest[0] != '\''
    ensures ReadQuoted(x + "'" + rest) == Some((x, rest))
  {
    if x != [] {
      assert (x + "'" + rest)[1..] == x[1..] + "'" + rest;
      ReadQuotedPlain(x[1..], rest);
      assert [x[0]] + x[1..] == x;
    } else {
      assert (x + "'" + rest)[1..] == rest;
    }
  }

  /** Quoted text with no quote and no backslash in it is read back as one literal, followed by what came after. */
  lemma ToStrReadsBack(x: string, rest: string)
    requires '\'' !in x && '\\' !in x
    requires rest == [] || rest[0] != '\''
    ensures ReadLiteral(ToStr(StrValue(x)) + rest) == Some((x, rest))
  {
    assert (ToStr(StrValue(x)) + rest)[1..] == x + "'" + rest;
    ReadQuotedPlain(x, rest);
  }

  /** Quotes are not escaped: in the value `O'Hara` the literal ends after `O` and `Hara'` is read as SQL. */
  lemma ToStrQuoteEndsLiteral()
    ensures ReadLiteral(ToStr(StrValue("O'Hara")) + ", 2") == Some(("O", "Hara', 2"))
  {
    var x, rest := "O", "Hara', 2";
    ReadQuotedPlain(x, rest);
    QuotedOHara();
    assert ("'" + (x + "'" + rest))[1..] == x + "'" + rest;
  }

  /** The text `_to_str` writes for `O'Hara`, followed by `, 2`. */
  lemma QuotedOHara()
    ensures ToStr(StrValue("O'Hara")) + ", 2" == "'" + ("O" + "'" + "Hara', 2")
  {
  }

  /** Backslashes are not escaped: the value `a\` gives `'a\'`, whose closing quote is escaped, so the literal is unclosed. */
  lemma ToStrTrailingBackslashUnclosed()
    ensures ReadLiteral(ToStr(StrValue("a\\"))) == None
  {
    var s := ToStr(StrValue("a\\"));
    assert s == "'a\\'";
    var t := s[1..];
    assert t == "a\\'" && t[1..] == "\\'";
    assert t[1..][2..] == [];
  }

  /** The attribute `_id`, in any letter case. */
  predicate IsIdAttribute(name: string) {
    Lower(name) == "_id"
  }

  /** The test both column builders of an INSERT apply: every attribute but `_id`. */
  predicate IsInsertField(f: Field) {
    !IsIdAttribute(f.0)
  }

  /** The column name of an attribute: its name without leading underscores. */
  function ColumnName(name: string): string {
    LStrip(name, '_')
  }

  /** The names of the fields, in order. */
  function Names(fields: seq<Field>): (names: seq<string>)
    ensures |names| == |fields|
    ensures forall i :: 0 <= i < |fields| ==> names[i] == fields[i].0
  {
    seq(|fields|, i requires 0 <= i < |fields| => fields[i].0)
  }

  /** The column name of each field. */
  function Columns(fields: seq<Field>): (cols: seq<string>)
    ensures |cols| == |fields|
    ensures forall i :: 0 <= i < |fields| ==> cols[i] == ColumnName(fields[i].0)
  {
    seq(|fields|, i requires 0 <= i < |fields| => ColumnName(fields[i].0))
  }

  /** The rendered value of each field. */
  function Rendered(fields: seq<Field>): (vals: seq<string>)
    ensures |vals| == |fields|
    ensures forall i :: 0 <= i < |fields| ==> vals[i] == ToStr(fields[i].1)
  {
    seq(|fields|, i requires 0 <= i < |fields| => ToStr(fields[i].1))
  }

  /** The `column=value` text of each field. */
  function Assignments(fields: seq<Field>): (sets: seq<string>)
    ensures |sets| == |fields|
    ensures forall i :: 0 <= i < |fields| ==> sets[i] == Assignment(fields[i])
  {
    seq(|fields|, i requires 0 <= i < |fields| => Assignment(fields[i]))
  }

  /** The column list of `_column_names_for_insert`, before joining. */
  function InsertColumns(names: seq<string>): (cols: seq<string>)
    ensures |cols| <= |names|
  {
    if names == [] then []
    else
      var init, last := names[..|names| - 1], names[|names| - 1];
      InsertColumns(init) + (if !IsIdAttribute(last) then [ColumnName(last)] else [])
  }

  /** An attribute name the INSERT builders keep: any but `_id`. */
  predicate IsInsertName(name: string) {
    !IsIdAttribute(name)
  }

  /** The column name of each attribute name. */
  function NameColumns(names: seq<string>): (cols: seq<string>)
    ensures |cols| == |names|
    ensures forall i :: 0 <= i < |names| ==> cols[i] == ColumnName(names[i])
  {
    seq(|names|, i requires 0 <= i < |names| => ColumnName(names[i]))
  }

  /**
   * `_column_names_for_insert` over the attribute names of an entity: the column name of every
   * attribute but `_id`, in declaration order, separated by `", "`.
   */
  function ColumnNamesForInsert(names: seq<string>): (r: string)
    ensures r == Join(NameColumns(Filter(names, IsInsertName)), ", ")
  {
    InsertColumnsOfNames(names);
    Join(InsertColumns(names), ", ")
  }

  /** The column list is the column names of the kept attribute names, in order. */
  lemma {:induction false} InsertColumnsOfNames(names: seq<string>)
    ensures InsertColumns(names) == NameColumns(Filter(names, IsInsertName))
  {
    if names != [] {
      var init, last := names[..|names| - 1], names[|names| - 1];
      InsertColumnsOfNames(init);
      var k := Filter(init, IsInsertName);
      assert names == init + [last];
      FilterSnoc(init, last, IsInsertName);
      if IsInsertName(last) {
        assert NameColumns(k + [last]) == NameColumns(k) + [ColumnName(last)];
      }
    }
  }

  /** The value list of `_column_values_for_insert`, before joining. */
  function InsertValues(fields: seq<Field>): (vals: seq<string>)
    ensures |vals| <= |fields|
  {
    if fields == [] then []
    else
      var init, last := fields[..|fields| - 1], fields[|fields| - 1];
      InsertValues(init) + (if IsInsertField(last) then [ToStr(last.1)] else [])
  }

  /** `_column_values_for_insert`: the rendered value of every field but `_id`, in order, separated by `", "`. */
  function ColumnValuesForInsert(fields: seq<Field>): (r: string)
    ensures r == Join(Rendered(Filter(fields, IsInsertField)), ", ")
  {
    InsertValuesOfKept(fields);
    Join(InsertValues(fields), ", ")
  }

  /**
   * Names and values of an INSERT correspond one to one: both are the fields other than `_id`,
   * in declaration order, the first giving each field's column name and the second its value.
   */
  lemma {:induction false} InsertColumnsMatchValues(fields: seq<Field>)
    ensures InsertColumns(Names(fields)) == Columns(Filter(fields, IsInsertField))
    ensures InsertValues(fields) == Rendered(Filter(fields, IsInsertField))
  {
    InsertColumnsOfKept(fields);
    InsertValuesOfKept(fields);
  }

  lemma {:induction false} InsertColumnsOfKept(fields: seq<Field>)
    ensures InsertColumns(Names(fields)) == Columns(Filter(fields, IsInsertField))
  {
    if fields != [] {
      var init, last := fields[..|fields| - 1], fields[|fields| - 1];
      var names := Names(fields);
      assert names[..|fields| - 1] == Names(init);
      InsertColumnsOfKept(init);
      var k := Filter(init, IsInsertField);
      var c := InsertColumns(Names(init));
      if IsInsertField(last) {
        assert InsertColumns(names) == c + [ColumnName(last.0)];
        assert Filter(fields, IsInsertField) == k + [last];
        assert Columns(k + [last]) == Columns(k) + [ColumnName(last.0)];
      } else {
        assert InsertColumns(names) == c;
        assert Filter(fields, IsInsertField) == k;
      }
    }
  }

  lemma {:induction false} InsertValuesOfKept(fields: seq<Field>)
    ensures InsertValues(fields) == Rendered(Filter(fields, IsInsertField))
  {
    if fields != [] {
      var init, last := fields[..|fields| - 1], fields[|fields| - 1];
      InsertValuesOfKept(init);
      var k := Filter(init, IsInsertField);
      if IsInsertField(last) {
        assert Filter(fields, IsInsertField) == k + [last];
        assert Rendered(k + [last]) == Rendered(k) + [ToStr(last.1)];
      } else {
        assert Filter(fields, IsInsertField) == k;
      }
    }
  }

  /**
   * `INSERT INTO table (columns) VALUES (values)`, the statement of `insert`. For an item of the
   * entity's type, the columns and the values come from the same fields, in the same order.
   */
  function InsertSql(table: string, names: seq<string>, item: seq<Field>): (r: string)
    ensures Names(item) == names ==>
      r == "INSERT INTO " + table + " (" + Join(Columns(Filter(item, IsInsertField)), ", ")
         + ") VALUES (" + Join(Rendered(Filter(item, IsInsertField)), ", ") + ")"
  {
    InsertColumnsOfKept(item);
    "INSERT INTO " + table + " (" + Join(InsertColumns(names), ", ") + ") VALUES (" + ColumnValuesForInsert(item) + ")"
  }

  /** One parenthesised value group per item, in item order. */
  function ValueGroups(items: seq<seq<Field>>): (groups: seq<string>)
    ensures |groups| == |items|
    ensures forall i :: 0 <= i < |items| ==> groups[i] == "(" + ColumnValuesForInsert(items[i]) + ")"
  {
    if items == [] then []
    else
      assert forall i :: 0 <= i < |items| - 1 ==> items[..|items| - 1][i] == items[i];
      ValueGroups(items[..|items| - 1]) + ["(" + ColumnValuesForInsert(items[|items| - 1]) + ")"]
  }

  /** The VALUES part of `insert_many`. */
  function InsertManyValues(items: seq<seq<Field>>): string {
    Join(ValueGroups(items), ", ")
  }

  /**
   * `INSERT INTO table (columns) VALUES group, group, ...`, the statement of `insert_many`. For one
   * item it is the statement of `insert`; for no items the VALUES list is empty.
   */
  function InsertManySql(table: string, names: seq<string>, items: seq<seq<Field>>): (r: string)
    ensures |items| == 1 ==> r == InsertSql(table, names, items[0])
    ensures items == [] ==> r == "INSERT INTO " + table + " (" + ColumnNamesForInsert(names) + ") VALUES "
  {
    "INSERT INTO " + table + " (" + ColumnNamesForInsert(names) + ") VALUES " + InsertManyValues(items)
  }

  /** Each further item adds its group at the end, after a `", "`. */
  lemma InsertManyValuesAppend(items: seq<seq<Field>>, item: seq<Field>)
    requires items != []
    ensures InsertManyValues(items + [item]) == InsertManyValues(items) + ", (" + ColumnValuesForInsert(item) + ")"
  {
    assert (items + [item])[..|items|] == items;
  }

  /** The test of `_column_names_and_values_for_update` as written: the name is not `id` and the value is set. */
  predicate IsUpdateField(f: Field) {
    Lower(f.0) != "id" && f.1 != NoneValue
  }

  /** `column=value` for one field. */
  function Assignment(f: Field): string {
    ColumnName(f.0) + "=" + ToStr(f.1)
  }

  /** The assignment list of `_column_names_and_values_for_update`, before joining. */
  function UpdateAssignments(fields: seq<Field>): (sets: seq<string>)
    ensures |sets| <= |fields|
  {
    if fields == [] then []
    else
      var init, last := fields[..|fields| - 1], fields[|fields| - 1];
      UpdateAssignments(init) + (if IsUpdateField(last) then [Assignment(last)] else [])
  }

  /**
   * `_column_names_and_values_for_update` as written: `column=value` for every set field whose name
   * is not `id`, in order, separated by `", "`. A set `_id` in first place is assigned first.
   */
  function ColumnNamesAndValuesForUpdate(fields: seq<Field>): (r: string)
    ensures r == Join(Assignments(Filter(fields, IsUpdateField)), ", ")
    ensures fields != [] && fields[0].0 == "_id" && fields[0].1 != NoneValue ==> "id=" + ToStr(fields[0].1) <= r
  {
    UpdateAssignmentsOfKept(fields);
    if fields != [] && fields[0].0 == "_id" && fields[0].1 != NoneValue then
      UpdateAssignsId(fields);
      JoinStartsWithFirst(UpdateAssignments(fields), ", ");
      Join(UpdateAssignments(fields), ", ")
    else
      Join(UpdateAssignments(fields), ", ")
  }

  /** The update sets, in declaration order, exactly the fields that pass its test. */
  lemma {:induction false} UpdateAssignmentsOfKept(fields: seq<Field>)
    ensures UpdateAssignments(fields) == Assignments(Filter(fields, IsUpdateField))
  {
    if fields != [] {
      var init, last := fields[..|fields| - 1], fields[|fields| - 1];
      UpdateAssignmentsOfKept(init);
      var k := Filter(init, IsUpdateField);
      if IsUpdateField(last) {
        assert Filter(fields, IsUpdateField) == k + [last];
        assert Assignments(k + [last]) == Assignments(k) + [Assignment(last)];
      } else {
        assert Filter(fields, IsUpdateField) == k;
      }
    }
  }

  /**
   * As written, the test compares the attribute name `_id` with `id`, so an entity whose id is set
   * has `id=...` among the columns its UPDATE assigns.
   */
  lemma {:induction false} UpdateAssignsId(fields: seq<Field>)
    requires fields != [] && fields[0].0 == "_id" && fields[0].1 != NoneValue
    ensures UpdateAssignments(fields) != [] && UpdateAssignments(fields)[0] == "id=" + ToStr(fields[0].1)
  {
    assert Lower("_id") == "_id";
    assert ColumnName("_id") == "id";
    if |fields| > 1 {
      UpdateAssignsId(fields[..|fields| - 1]);
    }
  }

  /** For a trip whose id is set, the UPDATE as written assigns the `id` column first. */
  lemma TripUpdateAssignsId(fields: seq<Field>)
    requires Names(fields) == TripFieldNames && fields[0].1 != NoneValue
    ensures UpdateAssignments(fields) != [] && UpdateAssignments(fields)[0] == "id=" + ToStr(fields[0].1)
  {
    assert fields[0].0 == TripFieldNames[0];
    UpdateAssignsId(fields);
  }

  /** The test the update evidently intends: the same `_id` exclusion as the INSERT, and the value is set. */
  predicate IsUpdateFieldSkippingId(f: Field) {
    IsInsertField(f) && f.1 != NoneValue
  }

  /** The assignment list with the id left out. */
  function UpdateAssignmentsSkippingId(fields: seq<Field>): (sets: seq<string>)
    ensures |sets| <= |fields|
  {
    if fields == [] then []
    else
      var init, last := fields[..|fields| - 1], fields[|fields| - 1];
      UpdateAssignmentsSkippingId(init) + (if IsUpdateFieldSkippingId(last) then [Assignment(last)] else [])
  }

  /**
   * `_column_names_and_values_for_update` skipping the id as its documentation says: `column=value`
   * for every set field among the INSERT's fields, in order.
   */
  function ColumnNamesAndValuesForUpdateSkippingId(fields: seq<Field>): (r: string)
    ensures r == Join(Assignments(Filter(Filter(fields, IsInsertField), IsSet)), ", ")
  {
    UpdateSkippingIdSetsInsertColumns(fields);
    Join(UpdateAssignmentsSkippingId(fields), ", ")
  }

  /**
   * The corrected update assigns exactly the INSERT columns whose value is set: the INSERT
   * columns, in order, with the unset ones left out.
   */
  lemma {:induction false} UpdateSkippingIdSetsInsertColumns(fields: seq<Field>)
    ensures UpdateAssignmentsSkippingId(fields) == Assignments(Filter(Filter(fields, IsInsertField), IsSet))
  {
    if fields != [] {
      var init, last := fields[..|fields| - 1], fields[|fields| - 1];
      assert fields == init + [last];
      UpdateSkippingIdSetsInsertColumns(init);
      var k := Filter(init, IsInsertField);
      assert UpdateAssignmentsSkippingId(fields)
          == UpdateAssignmentsSkippingId(init) + (if IsUpdateFieldSkippingId(last) then [Assignment(last)] else []);
      FilterSnoc(init, last, IsInsertField);
      if IsInsertField(last) {
        assert Filter(fields, IsInsertField) == k + [last];
        FilterSnoc(k, last, IsSet);
        if IsSet(last) {
          assert Filter(k + [last], IsSet) == Filter(k, IsSet) + [last];
          AssignmentsSnoc(Filter(k, IsSet), last);
        } else {
          assert Filter(k + [last], IsSet) == Filter(k, IsSet);
        }
      } else {
        assert Filter(fields, IsInsertField) == k;
      }
    }
  }

  /** The assignments of one more field end with its assignment. */
  lemma AssignmentsSnoc(fields: seq<Field>, f: Field)
    ensures Assignments(fields + [f]) == Assignments(fields) + [Assignment(f)]
  {
  }

  /** The corrected update never assigns the id attribute. */
  lemma UpdateSkippingIdNeverSetsId(fields: seq<Field>)
    ensures forall f :: f in Filter(Filter(fields, IsInsertField), IsSet) ==> !IsIdAttribute(f.0) && f.1 != NoneValue
  {
    FilterMembers(fields, IsInsertField);
    FilterMembers(Filter(fields, IsInsertField), IsSet);
  }

  /** The field has a value. */
  predicate IsSet(f: Field) {
    f.1 != NoneValue
  }
}
