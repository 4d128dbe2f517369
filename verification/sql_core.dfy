/** The SQL backend helpers: the dict mapping of `DictBase` models, the
    string-length guard run on model construction, the consumption of driver
    hints by `Base._filter`, and the conversion of database errors into
    conflicts. */
module SqlCore {
  import opened Wrappers
  import opened Python
  import opened DriverHints

  /** The type of a mapped column, as far as these helpers look at it. */
  datatype ColumnType = StringType(length: Option<nat>) | BooleanType | OtherType

  datatype Column = Column(name: string, ctype: ColumnType)

  /** A model class: its columns in declaration order and the `attributes`
      list `DictBase` keeps at the top level of its dicts. */
  datatype ModelClass = ModelClass(columns: seq<Column>, attributes: seq<string>)

  /** A model instance: the keyword arguments it was built from and its
      `extra` bag. A column that was not given reads as `None`. */
  datatype Row = Row(values: map<string, Value>, extra: map<string, Value>)

  datatype SqlError =
    | StringLengthExceeded(text: string, column: string, length: nat)
    | AttributeError(attr: string)
    | ValueError(missing: Hint)

  /** `getattr(model, name)` finds a mapped column. */
  predicate IsColumn(m: ModelClass, name: string) {
    exists i :: 0 <= i < |m.columns| && m.columns[i].name == name
  }

  /** The type of the first column called `name`. */
  function TypeOf(m: ModelClass, name: string): (r: Option<ColumnType>)
    ensures r.Some? <==> IsColumn(m, name)
  {
    TypeIn(m.columns, name)
  }

  function TypeIn(cs: seq<Column>, name: string): (r: Option<ColumnType>)
    ensures r.Some? <==> exists i :: 0 <= i < |cs| && cs[i].name == name
  {
    if |cs| == 0 then None
    else if cs[0].name == name then Some(cs[0].ctype)
    else
      var r := TypeIn(cs[1..], name);
      assert forall i :: 1 <= i < |cs| ==> cs[1..][i - 1] == cs[i];
      r
  }

  // ---------------------------------------------------------------------
  // The string-length guard

  /** A value given for column `c` is too long: `c` is a string column with
      a non-zero declared length below the length of `str(v)`. */
  predicate TooLong(c: Column, v: Value) {
    c.ctype.StringType? && c.ctype.length.Some? && c.ctype.length.value > 0 &&
    c.ctype.length.value < |ToStr(v)|
  }

  predicate Offends(c: Column, kw: map<string, Value>) {
    c.name in kw && TooLong(c, kw[c.name])
  }

  /** The first column that a keyword argument overflows. */
  function FirstOffence(cs: seq<Column>, kw: map<string, Value>): (r: Option<Column>)
    ensures r.None? <==> forall i :: 0 <= i < |cs| ==> !Offends(cs[i], kw)
    ensures r.Some? ==> r.value in cs && Offends(r.value, kw)
  {
    if |cs| == 0 then None
    else if Offends(cs[0], kw) then Some(cs[0])
    else
      assert forall i :: 1 <= i < |cs| ==> cs[1..][i - 1] == cs[i];
      FirstOffence(cs[1..], kw)
  }

  /** Constructing a model with the decorated `__init__`: the keyword
      arguments are checked against the string columns' lengths first. The
      `extra` column is a JSON blob and is never checked. */
  function Construct(m: ModelClass, kw: map<string, Value>, extra: map<string, Value>): (r: Result<Row, SqlError>)
    ensures r.Success? <==> forall i :: 0 <= i < |m.columns| ==> !Offends(m.columns[i], kw)
    ensures r.Success? ==> r.value.values == kw && r.value.extra == extra
    ensures r.Failure? ==> (
      var e := r.error;
      e.StringLengthExceeded? && Column(e.column, StringType(Some(e.length))) in m.columns &&
      e.column in kw && e.text == ToStr(kw[e.column]) && 0 < e.length < |e.text|)
  {
    match FirstOffence(m.columns, kw)
    case Some(c) => Failure(StringLengthExceeded(ToStr(kw[c.name]), c.name, c.ctype.length.value))
    case None => Success(Row(kw, extra))
  }

  // ---------------------------------------------------------------------
  // Dict mapping

  /** `getattr(row, attr)` for a column other than `extra`. */
  function Getattr(row: Row, attr: string): Value {
    if attr in row.values then row.values[attr] else Null
  }

  /** `getattr(row, attr)` for a declared attribute, `extra` included. */
  function AttrField(row: Row, attr: string): Field {
    if attr == "extra" then Nested(row.extra) else Flat(Getattr(row, attr))
  }

  /** `from_dict`: declared attributes become keyword arguments, every other
      key except `extra` goes into the `extra` bag, and a caller's own
      `extra` entry is dropped. */
  function FromDict(m: ModelClass, d: map<string, Value>): (r: Result<Row, SqlError>)
    ensures r.Success? ==> forall k :: k in r.value.extra <==> k in d && k !in m.attributes && k != "extra"
    ensures r.Success? ==> forall k :: k in r.value.values <==> k in d && k in m.attributes && k != "extra"
    ensures r.Success? ==> forall k :: k in d && k != "extra" ==>
      (if k in m.attributes then r.value.values[k] else r.value.extra[k]) == d[k]
  {
    var kw := map k | k in d && k in m.attributes && k != "extra" :: d[k];
    var extra := map k | k in d && k !in m.attributes && k != "extra" :: d[k];
    Construct(m, kw, extra)
  }

  /** `from_dict` fails exactly when a declared attribute overflows its
      string column. */
  lemma FromDictFails(m: ModelClass, d: map<string, Value>)
    ensures FromDict(m, d).Failure? <==>
      exists i :: 0 <= i < |m.columns| && var c := m.columns[i];
        c.name in d && c.name in m.attributes && c.name != "extra" && TooLong(c, d[c.name])
  {
    var kw := map k | k in d && k in m.attributes && k != "extra" :: d[k];
    assert forall i :: 0 <= i < |m.columns| ==>
      (Offends(m.columns[i], kw) <==>
        (m.columns[i].name in d && m.columns[i].name in m.attributes && m.columns[i].name != "extra" &&
         TooLong(m.columns[i], d[m.columns[i].name])));
  }

  /** `to_dict`: the `extra` entries overlaid with every declared attribute,
      plus a copy of `extra` under its own name when asked for. */
  function ToDict(m: ModelClass, row: Row, includeExtra: bool): (r: map<string, Field>)
    ensures forall k :: k in r <==> k in row.extra || k in m.attributes || (includeExtra && k == "extra")
    ensures forall k :: k in m.attributes && (k != "extra" || !includeExtra) ==> r[k] == AttrField(row, k)
    ensures forall k :: k in row.extra && k !in m.attributes && k != "extra" ==> r[k] == Flat(row.extra[k])
    ensures includeExtra ==> r["extra"] == Nested(row.extra)
  {
    var overlay := (map k | k in row.extra :: Flat(row.extra[k])) + (map a | a in m.attributes :: AttrField(row, a));
    if includeExtra then overlay["extra" := Nested(row.extra)] else overlay
  }

  /** Mapping a dict to a model and back gives the dict again, its values
      unchanged, except that absent attributes come back as `None` and a
      caller's `extra` entry is gone. */
  lemma DictRoundTrip(m: ModelClass, d: map<string, Value>)
    requires "extra" !in m.attributes
    requires FromDict(m, d).Success?
    ensures ToDict(m, FromDict(m, d).value, false)
         == map k | k in (d.Keys - {"extra"}) + (set a | a in m.attributes) :: Flat(if k in d then d[k] else Null)
  {
  }

  /** The round trip in its plain form: a dict holding every declared
      attribute and no `extra` key comes back unchanged. */
  lemma DictRoundTripComplete(m: ModelClass, d: map<string, Value>)
    requires "extra" !in m.attributes && "extra" !in d
    requires forall a :: a in m.attributes ==> a in d
    requires FromDict(m, d).Success?
    ensures ToDict(m, FromDict(m, d).value, false) == map k | k in d :: Flat(d[k])
  {
    DictRoundTrip(m, d);
  }

  /** `row[key]`: an `extra` entry shadows the attribute of the same name. */
  function GetItem(m: ModelClass, row: Row, key: string): (r: Result<Field, SqlError>)
    ensures key in row.extra ==> r == Success(Flat(row.extra[key]))
    ensures key !in row.extra && (key in m.attributes || IsColumn(m, key) || key == "extra") ==>
      r == Success(AttrField(row, key))
    ensures r.Failure? <==> key !in row.extra && key !in m.attributes && !IsColumn(m, key) && key != "extra"
  {
    if key in row.extra then Success(Flat(row.extra[key]))
    else if key in m.attributes || IsColumn(m, key) || key == "extra" then Success(AttrField(row, key))
    else Failure(AttributeError(key))
  }

  /** On a model built by `from_dict`, indexing agrees with `to_dict` for
      every key `to_dict` returns. */
  lemma GetItemAgreesWithToDict(m: ModelClass, d: map<string, Value>, key: string)
    requires FromDict(m, d).Success?
    requires key in ToDict(m, FromDict(m, d).value, false)
    ensures GetItem(m, FromDict(m, d).value, key) == Success(ToDict(m, FromDict(m, d).value, false)[key])
  {
  }

  /** Where `extra` and an attribute share a key, indexing sees the `extra`
      value while `to_dict` reports the attribute. */
  lemma GetItemShadowsAttribute(m: ModelClass, row: Row, key: string)
    requires key in row.extra && key in m.attributes && key != "extra"
    ensures GetItem(m, row, key) == Success(Flat(row.extra[key]))
    ensures ToDict(m, row, false)[key] == Flat(Getattr(row, key))
  {
  }

  // ---------------------------------------------------------------------
  // Hint consumption

  /** A clause added to the query: a case-insensitive pattern match on a
      column, or one equality match on several columns. */
  datatype Clause = ILike(column: string, pattern: string) | FilterBy(exact: map<string, Value>)

  datatype Filtered = Filtered(query: seq<Clause>, hints: Hints)

  predicate IsInexact(f: Hint) {
    f.comparator == "contains" || f.comparator == "startswith" || f.comparator == "endswith"
  }

  /** A filter the SQL query satisfies: every exact filter, and the
      case-insensitive inexact ones. */
  predicate Satisfied(f: Hint) {
    f.comparator == "equals" || (IsInexact(f) && !f.caseSensitive)
  }

  /** The ilike pattern of an inexact filter. */
  function Pattern(f: Hint): string
    requires IsInexact(f)
  {
    if f.comparator == "contains" then "%" + ToStr(f.value) + "%"
    else if f.comparator == "startswith" then ToStr(f.value) + "%"
    else "%" + ToStr(f.value)
  }

  /** SQL `LIKE` matching of a text against a pattern, without case
      folding: `%` matches any run of characters, `_` any one character
      and every other character itself. */
  predicate LikeMatch(p: string, t: string)
    decreases |p| + |t|
  {
    if |p| == 0 then |t| == 0
    else if p[0] == '%' then LikeMatch(p[1..], t) || (|t| > 0 && LikeMatch(p, t[1..]))
    else |t| > 0 && (p[0] == '_' || p[0] == t[0]) && LikeMatch(p[1..], t[1..])
  }

  /** A text with neither wildcard in it. */
  predicate NoWildcards(s: string) {
    forall i :: 0 <= i < |s| ==> s[i] != '%' && s[i] != '_'
  }

  /** Python's `t.startswith(v)`, `v in t` and `t.endswith(v)`. */
  predicate StartsWithText(t: string, v: string) {
    |v| <= |t| && t[..|v|] == v
  }

  predicate ContainsText(t: string, v: string) {
    exists k :: 0 <= k <= |t| && StartsWithText(t[k..], v)
  }

  predicate EndsWithText(t: string, v: string) {
    |v| <= |t| && t[|t| - |v|..] == v
  }

  /** The text an inexact filter asks for, as Python would test it. */
  predicate InexactHolds(f: Hint, t: string)
    requires IsInexact(f)
  {
    var v := ToStr(f.value);
    if f.comparator == "contains" then ContainsText(t, v)
    else if f.comparator == "startswith" then StartsWithText(t, v)
    else EndsWithText(t, v)
  }

  /** The ilike clause of an inexact filter matches a column text exactly
      when the filter's own comparison holds, as long as the value has no
      wildcard in it. */
  lemma PatternMeaning(f: Hint, t: string)
    requires IsInexact(f) && NoWildcards(ToStr(f.value))
    ensures LikeMatch(Pattern(f), t) <==> InexactHolds(f, t)
  {
    var v := ToStr(f.value);
    if f.comparator == "contains" {
      assert Pattern(f) == "%" + (v + "%");
      LikeAfterPercent(v + "%", t);
      forall k | 0 <= k <= |t|
        ensures LikeMatch(v + "%", t[k..]) <==> StartsWithText(t[k..], v)
      {
        LikeLiteralPrefix(v, "%", t[k..]);
        LikeAnyText(t[k + Min(|v|, |t| - k)..]);
      }
    } else if f.comparator == "startswith" {
      LikeLiteralPrefix(v, "%", t);
      if |v| <= |t| {
        LikeAnyText(t[|v|..]);
      }
    } else {
      LikeAfterPercent(v, t);
      forall k | 0 <= k <= |t|
        ensures LikeMatch(v, t[k..]) <==> t[k..] == v
      {
        LikeLiteral(v, t[k..]);
      }
      if EndsWithText(t, v) {
        assert t[|t| - |v|..] == v;
      }
    }
  }

  function Min(a: int, b: int): int {
    if a <= b then a else b
  }

  /** `%` matches every text. */
  lemma {:induction false} LikeAnyText(t: string)
    ensures LikeMatch("%", t)
    decreases |t|
  {
    if |t| > 0 {
      LikeAnyText(t[1..]);
    }
  }

  /** A pattern that starts with `%` matches a text exactly when the rest
      of the pattern matches one of its suffixes. */
  lemma {:induction false} LikeAfterPercent(q: string, t: string)
    ensures LikeMatch("%" + q, t) <==> exists k :: 0 <= k <= |t| && LikeMatch(q, t[k..])
    decreases |t|
  {
    var p := "%" + q;
    assert p[0] == '%' && p[1..] == q;
    assert t[0..] == t;
    if |t| > 0 {
      LikeAfterPercent(q, t[1..]);
      assert forall k :: 1 <= k <= |t| ==> t[1..][k - 1..] == t[k..];
    }
  }

  /** A wildcard-free prefix of a pattern matches itself and nothing else. */
  lemma {:induction false} LikeLiteralPrefix(v: string, q: string, t: string)
    requires NoWildcards(v)
    ensures LikeMatch(v + q, t) <==> |v| <= |t| && t[..|v|] == v && LikeMatch(q, t[|v|..])
    decreases |v|
  {
    if |v| == 0 {
      assert v + q == q && t[0..] == t;
    } else {
      var p := v + q;
      assert p[0] == v[0] && p[1..] == v[1..] + q;
      assert v[0] != '%' && v[0] != '_';
      if |t| > 0 {
        LikeLiteralPrefix(v[1..], q, t[1..]);
        if |v| <= |t| {
          assert t[..|v|] == [t[0]] + t[1..][..|v| - 1];
          assert v == [v[0]] + v[1..];
          assert t[1..][|v| - 1..] == t[|v|..];
        }
      }
    }
  }

  /** A wildcard-free pattern matches only itself. */
  lemma LikeLiteral(v: string, t: string)
    requires NoWildcards(v)
    ensures LikeMatch(v, t) <==> t == v
  {
    assert v + "" == v;
    LikeLiteralPrefix(v, "", t);
  }

  /** The value an exact filter matches: boolean columns take the value
      through `attr_as_boolean`, here the parameter `asBoolean`. */
  function ExactValue(m: ModelClass, asBoolean: Value -> bool, f: Hint): Value {
    if TypeOf(m, f.name) == Some(BooleanType) then Bool(asBoolean(f.value)) else f.value
  }

  /** Python `==` between two hint dicts. */
  predicate SameHint(a: Hint, b: Hint) {
    a.name == b.name && Equal(a.value, b.value) && a.comparator == b.comparator &&
    a.caseSensitive == b.caseSensitive && a.kind == b.kind
  }

  /** `list.remove`: drops the first entry equal to `f`; `None` stands for
      the `ValueError` raised when there is none. */
  function RemoveFirst(hints: Hints, f: Hint): (r: Option<Hints>)
    ensures r.None? <==> forall i :: 0 <= i < |hints| ==> !SameHint(hints[i], f)
    ensures r.Some? ==> |r.value| == |hints| - 1
  {
    if |hints| == 0 then None
    else if SameHint(hints[0], f) then Some(hints[1..])
    else
      match RemoveFirst(hints[1..], f)
      case None =>
        assert forall i :: 1 <= i < |hints| ==> hints[1..][i - 1] == hints[i];
        None
      case Some(t) => Some([hints[0]] + t)
  }

  /** What `list.remove` leaves: the entries before the first equal one
      and those after it, in order. */
  lemma {:induction false} RemoveFirstDropsFirstSame(hints: Hints, f: Hint)
    ensures RemoveFirst(hints, f).Some? ==>
      exists i :: FirstSame(hints, f, i) && RemoveFirst(hints, f).value == hints[..i] + hints[i + 1..]
  {
    if |hints| > 0 {
      if SameHint(hints[0], f) {
        assert FirstSame(hints, f, 0) && hints[1..] == hints[..0] + hints[1..];
      } else if RemoveFirst(hints[1..], f).Some? {
        var t := RemoveFirst(hints[1..], f).value;
        RemoveFirstDropsFirstSame(hints[1..], f);
        var i :| FirstSame(hints[1..], f, i) && t == hints[1..][..i] + hints[1..][i + 1..];
        FirstSameOfTail(hints, f, i);
      }
    }
  }

  lemma FirstSameOfTail(hints: Hints, f: Hint, i: int)
    requires |hints| > 0 && !SameHint(hints[0], f) && FirstSame(hints[1..], f, i)
    ensures FirstSame(hints, f, i + 1)
    ensures [hints[0]] + (hints[1..][..i] + hints[1..][i + 1..]) == hints[..i + 1] + hints[i + 2..]
  {
    assert forall j :: 1 <= j < |hints| ==> hints[1..][j - 1] == hints[j];
    assert hints[..i + 1] == [hints[0]] + hints[1..][..i];
    assert hints[i + 2..] == hints[1..][i + 1..];
  }

  /** `hints[i]` is the first entry equal to `f`. */
  predicate FirstSame(hints: Hints, f: Hint, i: int) {
    0 <= i < |hints| && SameHint(hints[i], f) && forall j :: 0 <= j < i ==> !SameHint(hints[j], f)
  }

  /** The state `_filter` carries through its loop. */
  datatype Pass = Pass(query: seq<Clause>, exact: map<string, Value>, hints: Hints)

  /** The loop of `_filter` over a snapshot `fs` of the filters. */
  function FilterLoop(m: ModelClass, asBoolean: Value -> bool, fs: Hints, st: Pass): Result<Pass, SqlError>
    decreases |fs|
  {
    if |fs| == 0 then Success(st)
    else
      var f := fs[0];
      if !IsColumn(m, f.name) then Failure(AttributeError(f.name))
      else if f.comparator == "equals" then
        match RemoveFirst(st.hints, f)
        case None => Failure(ValueError(f))
        case Some(h) => FilterLoop(m, asBoolean, fs[1..], Pass(st.query, st.exact[f.name := ExactValue(m, asBoolean, f)], h))
      else if f.caseSensitive || !IsInexact(f) then FilterLoop(m, asBoolean, fs[1..], st)
      else
        match RemoveFirst(st.hints, f)
        case None => Failure(ValueError(f))
        case Some(h) => FilterLoop(m, asBoolean, fs[1..], Pass(st.query + [ILike(f.name, Pattern(f))], st.exact, h))
  }

  /** `_filter`: runs the loop over `hints.filters()`, then adds one
      equality clause when any exact filter was seen. */
  function Filter(m: ModelClass, asBoolean: Value -> bool, query: seq<Clause>, hints: Hints): (r: Result<Filtered, SqlError>)
    ensures r.Success? <==> NamesColumns(m, hints)
    ensures r.Failure? ==> (r.error.AttributeError? && !IsColumn(m, r.error.attr) &&
      exists i :: 0 <= i < |hints| && IsFilter(hints[i]) && hints[i].name == r.error.attr)
    ensures r.Failure? ==> exists i :: FirstNonColumn(m, Filters(hints), i) && Filters(hints)[i].name == r.error.attr
    ensures r.Success? ==> r.value.hints == Unsatisfied(hints)
    ensures r.Success? ==>
      r.value.query == query + PatternClauses(Filters(hints)) + ExactClause(ExactMap(m, asBoolean, Filters(hints)))
  {
    FilterOutcome(m, asBoolean, query, hints);
    LoopFails(m, asBoolean, Filters(hints), Pass(query, map[], hints));
    var p :- FilterLoop(m, asBoolean, Filters(hints), Pass(query, map[], hints));
    Success(Filtered(p.query + ExactClause(p.exact), p.hints))
  }

  /** All filters name a column. */
  predicate NamesColumns(m: ModelClass, hints: Hints) {
    forall i :: 0 <= i < |hints| && IsFilter(hints[i]) ==> IsColumn(m, hints[i].name)
  }

  /** `_filter` succeeds exactly when every filter names a column; the
      remaining hints are then the unsatisfied entries and the query gains
      the pattern clauses in filter order followed by the equality clause. */
  lemma FilterOutcome(m: ModelClass, asBoolean: Value -> bool, query: seq<Clause>, hints: Hints)
    ensures var r := FilterLoop(m, asBoolean, Filters(hints), Pass(query, map[], hints));
      (r.Success? <==> NamesColumns(m, hints)) &&
      (r.Failure? ==> (r.error.AttributeError? && !IsColumn(m, r.error.attr) &&
        exists i :: 0 <= i < |hints| && IsFilter(hints[i]) && hints[i].name == r.error.attr)) &&
      (r.Success? ==> r.value == Pass(query + PatternClauses(Filters(hints)), ExactMap(m, asBoolean, Filters(hints)),
                                      Unsatisfied(hints)))
  {
    var fs := Filters(hints);
    var st := Pass(query, map[], hints);
    RemovalsLeaveUnsatisfied(hints);
    LoopFails(m, asBoolean, fs, st);
    FilterNamesAreColumns(m, hints);
    if NamesColumns(m, hints) {
      LoopComputes(m, asBoolean, fs, st);
      assert map[] + ExactMap(m, asBoolean, fs) == ExactMap(m, asBoolean, fs);
    }
    var r := FilterLoop(m, asBoolean, fs, st);
    if r.Failure? {
      var i :| 0 <= i < |fs| && fs[i].name == r.error.attr && !IsColumn(m, fs[i].name);
      assert fs[i] in fs;
      var j :| 0 <= j < |hints| && hints[j] == fs[i];
    }
  }

  lemma FilterNamesAreColumns(m: ModelClass, hints: Hints)
    ensures NamesColumns(m, hints) <==> AllColumns(m, Filters(hints))
  {
    var fs := Filters(hints);
    assert NamesColumns(m, hints) ==> AllColumns(m, fs) by {
      if NamesColumns(m, hints) {
        forall i | 0 <= i < |fs|
          ensures IsColumn(m, fs[i].name)
        {
          assert fs[i] in hints && IsFilter(fs[i]);
          var j :| 0 <= j < |hints| && hints[j] == fs[i];
        }
      }
    }
    assert AllColumns(m, fs) ==> NamesColumns(m, hints) by {
      if AllColumns(m, fs) {
        forall j | 0 <= j < |hints| && IsFilter(hints[j])
          ensures IsColumn(m, hints[j].name)
        {
          assert hints[j] in fs;
          var i :| 0 <= i < |fs| && fs[i] == hints[j];
        }
      }
    }
  }

  function ExactClause(exact: map<string, Value>): seq<Clause> {
    if |exact| > 0 then [FilterBy(exact)] else []
  }

  /** Reference definitions of what the loop computes. */

  /** The filters left over: every entry that is not a satisfied filter,
      in its original order. */
  function Unsatisfied(hints: Hints): (r: Hints)
    ensures forall h :: h in r <==> h in hints && !(IsFilter(h) && Satisfied(h))
  {
    if |hints| == 0 then []
    else
      assert hints == [hints[0]] + hints[1..];
      (if IsFilter(hints[0]) && Satisfied(hints[0]) then [] else [hints[0]]) + Unsatisfied(hints[1..])
  }

  /** The ilike clauses of the case-insensitive inexact filters, in order. */
  function PatternClauses(fs: Hints): (r: seq<Clause>)
    ensures forall c :: c in r ==> c.ILike?
  {
    if |fs| == 0 then []
    else
      (if fs[0].comparator != "equals" && IsInexact(fs[0]) && !fs[0].caseSensitive
       then [ILike(fs[0].name, Pattern(fs[0]))] else []) + PatternClauses(fs[1..])
  }

  /** `fs[i]` is an exact filter and no later exact filter has its name. */
  predicate LastExact(fs: Hints, i: int) {
    0 <= i < |fs| && fs[i].comparator == "equals" &&
    forall j :: i < j < |fs| ==> !(fs[j].comparator == "equals" && fs[j].name == fs[i].name)
  }

  /** The equality map of the exact filters: a later filter on a name
      overrides an earlier one. */
  function ExactMap(m: ModelClass, asBoolean: Value -> bool, fs: Hints): map<string, Value> {
    if |fs| == 0 then map[]
    else (if fs[0].comparator == "equals" then map[fs[0].name := ExactValue(m, asBoolean, fs[0])] else map[]) +
         ExactMap(m, asBoolean, fs[1..])
  }

  /** The names in the equality map are those of the exact filters. */
  lemma {:induction false} ExactMapNames(m: ModelClass, asBoolean: Value -> bool, fs: Hints)
    ensures forall n :: n in ExactMap(m, asBoolean, fs) <==>
      exists i :: 0 <= i < |fs| && fs[i].comparator == "equals" && fs[i].name == n
  {
    if |fs| > 0 {
      ExactMapNames(m, asBoolean, fs[1..]);
      forall n
        ensures n in ExactMap(m, asBoolean, fs) <==>
          exists i :: 0 <= i < |fs| && fs[i].comparator == "equals" && fs[i].name == n
      {
        if n in ExactMap(m, asBoolean, fs[1..]) {
          var j :| 0 <= j < |fs[1..]| && fs[1..][j].comparator == "equals" && fs[1..][j].name == n;
          assert fs[j + 1] == fs[1..][j];
        }
        if exists i :: 0 <= i < |fs| && fs[i].comparator == "equals" && fs[i].name == n {
          var i :| 0 <= i < |fs| && fs[i].comparator == "equals" && fs[i].name == n;
          if i > 0 {
            assert fs[1..][i - 1] == fs[i];
          }
        }
      }
    }
  }

  /** A later exact filter on a name overrides an earlier one. */
  lemma {:induction false} ExactMapLastWins(m: ModelClass, asBoolean: Value -> bool, fs: Hints, i: int)
    requires LastExact(fs, i)
    ensures fs[i].name in ExactMap(m, asBoolean, fs)
    ensures ExactMap(m, asBoolean, fs)[fs[i].name] == ExactValue(m, asBoolean, fs[i])
    decreases |fs|
  {
    var rest := ExactMap(m, asBoolean, fs[1..]);
    if i == 0 {
      ExactMapNames(m, asBoolean, fs[1..]);
    } else {
      assert forall j :: 0 <= j < |fs| - 1 ==> fs[1..][j] == fs[j + 1];
      assert LastExact(fs[1..], i - 1);
      ExactMapLastWins(m, asBoolean, fs[1..], i - 1);
    }
  }

  /** The hints after removing, in turn, each satisfied filter of `fs`. */
  function RemoveSatisfied(fs: Hints, hints: Hints): Option<Hints> {
    if |fs| == 0 then Some(hints)
    else if Satisfied(fs[0]) then
      match RemoveFirst(hints, fs[0])
      case None => None
      case Some(h) => RemoveSatisfied(fs[1..], h)
    else RemoveSatisfied(fs[1..], hints)
  }

  /** All filters of `fs` name a column. */
  predicate AllColumns(m: ModelClass, fs: Hints) {
    forall i :: 0 <= i < |fs| ==> IsColumn(m, fs[i].name)
  }

  lemma AllColumnsTail(m: ModelClass, fs: Hints)
    requires |fs| > 0
    ensures AllColumns(m, fs) <==> IsColumn(m, fs[0].name) && AllColumns(m, fs[1..])
  {
    assert forall i :: 1 <= i < |fs| ==> fs[1..][i - 1] == fs[i];
  }

  /** When every filter names a column and no removal misses, the loop
      computes the reference definitions. */
  lemma {:induction false} LoopComputes(m: ModelClass, asBoolean: Value -> bool, fs: Hints, st: Pass)
    requires AllColumns(m, fs) && RemoveSatisfied(fs, st.hints).Some?
    ensures FilterLoop(m, asBoolean, fs, st) ==
      Success(Pass(st.query + PatternClauses(fs), st.exact + ExactMap(m, asBoolean, fs), RemoveSatisfied(fs, st.hints).value))
    decreases |fs|, 1
  {
    if |fs| > 0 {
      AllColumnsTail(m, fs);
      if fs[0].comparator == "equals" {
        LoopComputesExact(m, asBoolean, fs, st);
      } else if fs[0].caseSensitive || !IsInexact(fs[0]) {
        LoopComputesSkip(m, asBoolean, fs, st);
      } else {
        LoopComputesPattern(m, asBoolean, fs, st);
      }
    } else {
      assert st.query + PatternClauses(fs) == st.query;
      assert st.exact + ExactMap(m, asBoolean, fs) == st.exact;
    }
  }

  lemma {:induction false} LoopComputesExact(m: ModelClass, asBoolean: Value -> bool, fs: Hints, st: Pass)
    requires |fs| > 0 && fs[0].comparator == "equals" && IsColumn(m, fs[0].name) && AllColumns(m, fs[1..])
    requires RemoveSatisfied(fs, st.hints).Some?
    ensures FilterLoop(m, asBoolean, fs, st) ==
      Success(Pass(st.query + PatternClauses(fs), st.exact + ExactMap(m, asBoolean, fs), RemoveSatisfied(fs, st.hints).value))
    decreases |fs|, 0
  {
    var f := fs[0];
    var h := RemoveFirst(st.hints, f).value;
    var st' := Pass(st.query, st.exact[f.name := ExactValue(m, asBoolean, f)], h);
    assert FilterLoop(m, asBoolean, fs, st) == FilterLoop(m, asBoolean, fs[1..], st');
    LoopComputes(m, asBoolean, fs[1..], st');
    assert PatternClauses(fs) == PatternClauses(fs[1..]);
    UpdateThenUnion(st.exact, f.name, ExactValue(m, asBoolean, f), ExactMap(m, asBoolean, fs[1..]));
  }

  lemma {:induction false} LoopComputesSkip(m: ModelClass, asBoolean: Value -> bool, fs: Hints, st: Pass)
    requires |fs| > 0 && fs[0].comparator != "equals" && (fs[0].caseSensitive || !IsInexact(fs[0]))
    requires IsColumn(m, fs[0].name) && AllColumns(m, fs[1..])
    requires RemoveSatisfied(fs, st.hints).Some?
    ensures FilterLoop(m, asBoolean, fs, st) ==
      Success(Pass(st.query + PatternClauses(fs), st.exact + ExactMap(m, asBoolean, fs), RemoveSatisfied(fs, st.hints).value))
    decreases |fs|, 0
  {
    SkipStep(m, asBoolean, fs, st);
    LoopComputes(m, asBoolean, fs[1..], st);
  }

  lemma {:induction false} LoopComputesPattern(m: ModelClass, asBoolean: Value -> bool, fs: Hints, st: Pass)
    requires |fs| > 0 && fs[0].comparator != "equals" && !fs[0].caseSensitive && IsInexact(fs[0])
    requires IsColumn(m, fs[0].name) && AllColumns(m, fs[1..])
    requires RemoveSatisfied(fs, st.hints).Some?
    ensures FilterLoop(m, asBoolean, fs, st) ==
      Success(Pass(st.query + PatternClauses(fs), st.exact + ExactMap(m, asBoolean, fs), RemoveSatisfied(fs, st.hints).value))
    decreases |fs|, 0
  {
    var f := fs[0];
    var h := RemoveFirst(st.hints, f).value;
    var st' := Pass(st.query + [ILike(f.name, Pattern(f))], st.exact, h);
    assert FilterLoop(m, asBoolean, fs, st) == FilterLoop(m, asBoolean, fs[1..], st');
    LoopComputes(m, asBoolean, fs[1..], st');
    assert ExactMap(m, asBoolean, fs) == ExactMap(m, asBoolean, fs[1..]);
    assert st'.query + PatternClauses(fs[1..]) == st.query + PatternClauses(fs);
  }

  /** One loop step over a filter `_filter` leaves alone. */
  lemma SkipStep(m: ModelClass, asBoolean: Value -> bool, fs: Hints, st: Pass)
    requires |fs| > 0 && fs[0].comparator != "equals" && (fs[0].caseSensitive || !IsInexact(fs[0]))
    requires IsColumn(m, fs[0].name)
    ensures RemoveSatisfied(fs, st.hints) == RemoveSatisfied(fs[1..], st.hints)
    ensures FilterLoop(m, asBoolean, fs, st) == FilterLoop(m, asBoolean, fs[1..], st)
    ensures PatternClauses(fs) == PatternClauses(fs[1..])
    ensures ExactMap(m, asBoolean, fs) == ExactMap(m, asBoolean, fs[1..])
  {
    assert !Satisfied(fs[0]);
    assert PatternClauses(fs) == [] + PatternClauses(fs[1..]);
    assert ExactMap(m, asBoolean, fs) == map[] + ExactMap(m, asBoolean, fs[1..]);
  }

  lemma UpdateThenUnion(a: map<string, Value>, k: string, v: Value, b: map<string, Value>)
    ensures a[k := v] + b == a + (map[k := v] + b)
  {
  }

  /** The loop fails only on a filter naming no column, or on a removal
      that misses. */
  lemma {:induction false} LoopFails(m: ModelClass, asBoolean: Value -> bool, fs: Hints, st: Pass)
    ensures var r := FilterLoop(m, asBoolean, fs, st);
      r.Failure? ==>
        (r.error.AttributeError? && exists i :: FirstNonColumn(m, fs, i) && fs[i].name == r.error.attr) ||
        (r.error.ValueError? && RemoveSatisfied(fs, st.hints).None?)
    ensures FilterLoop(m, asBoolean, fs, st).Success? ==> AllColumns(m, fs)
    decreases |fs|
  {
    if |fs| > 0 {
      var f := fs[0];
      AllColumnsTail(m, fs);
      if !IsColumn(m, f.name) {
        assert FirstNonColumn(m, fs, 0);
      } else if f.comparator == "equals" || !(f.caseSensitive || !IsInexact(f)) {
        match RemoveFirst(st.hints, f)
        case None =>
        case Some(h) =>
          var st' := if f.comparator == "equals"
            then Pass(st.query, st.exact[f.name := ExactValue(m, asBoolean, f)], h)
            else Pass(st.query + [ILike(f.name, Pattern(f))], st.exact, h);
          LoopFails(m, asBoolean, fs[1..], st');
          FirstNonColumnOfTail(m, fs);
      } else {
        LoopFails(m, asBoolean, fs[1..], st);
        FirstNonColumnOfTail(m, fs);
      }
    }
  }

  /** `fs[i]` is the first filter of `fs` that names no column. */
  predicate FirstNonColumn(m: ModelClass, fs: Hints, i: int) {
    0 <= i < |fs| && !IsColumn(m, fs[i].name) && forall j :: 0 <= j < i ==> IsColumn(m, fs[j].name)
  }

  lemma FirstNonColumnOfTail(m: ModelClass, fs: Hints)
    requires |fs| > 0 && IsColumn(m, fs[0].name)
    ensures forall i :: FirstNonColumn(m, fs[1..], i) ==> FirstNonColumn(m, fs, i + 1) && fs[i + 1] == fs[1..][i]
  {
    assert forall i :: 1 <= i < |fs| ==> fs[1..][i - 1] == fs[i];
  }

  /** Removals for satisfied filters pass over an entry that is not a
      satisfied filter. */
  lemma {:induction false} RemovalsPassOver(fs: Hints, h: Hint, rest: Hints)
    requires !(IsFilter(h) && Satisfied(h))
    requires forall i :: 0 <= i < |fs| ==> IsFilter(fs[i])
    ensures RemoveSatisfied(fs, [h] + rest) ==
      match RemoveSatisfied(fs, rest) case None => None case Some(t) => Some([h] + t)
    decreases |fs|
  {
    if |fs| > 0 {
      assert forall i :: 1 <= i < |fs| ==> fs[1..][i - 1] == fs[i];
      if Satisfied(fs[0]) {
        assert !SameHint(h, fs[0]);
        assert ([h] + rest)[1..] == rest;
        match RemoveFirst(rest, fs[0])
        case None =>
        case Some(t) => RemovalsPassOver(fs[1..], h, t);
      } else {
        RemovalsPassOver(fs[1..], h, rest);
      }
    }
  }

  /** Removing each satisfied filter of `hints.filters()` from `hints`
      never misses and leaves exactly the unsatisfied entries. */
  lemma {:induction false} RemovalsLeaveUnsatisfied(hints: Hints)
    ensures RemoveSatisfied(Filters(hints), hints) == Some(Unsatisfied(hints))
  {
    if |hints| > 0 {
      var h := hints[0];
      var rest := hints[1..];
      assert hints == [h] + rest;
      RemovalsLeaveUnsatisfied(rest);
      var fr := Filters(rest);
      FiltersAreFilters(rest);
      if IsFilter(h) && Satisfied(h) {
        assert Filters(hints) == [h] + fr;
        assert ([h] + fr)[1..] == fr;
        EqualReflexive(h.value);
        assert RemoveFirst(hints, h) == Some(rest);
        assert Unsatisfied(hints) == Unsatisfied(rest);
      } else {
        assert Filters(hints) == (if IsFilter(h) then [h] else []) + fr;
        assert Unsatisfied(hints) == [h] + Unsatisfied(rest);
        RemovalsPassOver(fr, h, rest);
        if IsFilter(h) {
          assert ([h] + fr)[1..] == fr;
          assert RemoveSatisfied([h] + fr, hints) == RemoveSatisfied(fr, hints);
        } else {
          assert [] + fr == fr;
        }
      }
    }
  }

  /** Every exact filter is consumed, whatever its case sensitivity, and
      the equality clause holds the value of the last one on each name. */
  lemma FilterMergesExactFilters(m: ModelClass, asBoolean: Value -> bool, query: seq<Clause>, hints: Hints, i: int)
    requires NamesColumns(m, hints)
    requires LastExact(Filters(hints), i)
    ensures Filter(m, asBoolean, query, hints).Success?
    ensures Filter(m, asBoolean, query, hints).value.query
         == query + PatternClauses(Filters(hints)) + [FilterBy(ExactMap(m, asBoolean, Filters(hints)))]
    ensures Filters(hints)[i].name in ExactMap(m, asBoolean, Filters(hints))
    ensures ExactMap(m, asBoolean, Filters(hints))[Filters(hints)[i].name] == ExactValue(m, asBoolean, Filters(hints)[i])
    ensures Filters(hints)[i] !in Filter(m, asBoolean, query, hints).value.hints
  {
    var fs := Filters(hints);
    ExactMapLastWins(m, asBoolean, fs, i);
    assert fs[i] in fs;
  }

  /** A case-sensitive or unrecognised non-exact filter stays in the hints. */
  lemma FilterKeepsUnsatisfied(m: ModelClass, asBoolean: Value -> bool, query: seq<Clause>, hints: Hints, h: Hint)
    requires NamesColumns(m, hints)
    requires h in hints && h.comparator != "equals" && (h.caseSensitive || !IsInexact(h))
    ensures Filter(m, asBoolean, query, hints).Success?
    ensures h in Filter(m, asBoolean, query, hints).value.hints
  {
  }

  // ---------------------------------------------------------------------
  // Conflict mapping

  /** What an inner database exception is, as far as the mapping asks. */
  datatype Inner = IntegrityError | OtherInner

  /** An exception a wrapped backend method may raise. */
  datatype Raised =
    | DbDuplicateEntry(message: string)
    | DbError(message: string, inner: Inner)
    | Conflict(conflictType: string, details: string)
    | OtherException(name: string, message: string)

  /** The outcome of a call: a value returned or an exception raised. */
  datatype Outcome<T> = Returned(value: T) | Threw(exc: Raised)

  /** `handle_conflicts(conflict_type)` applied to the outcome of the
      wrapped method. */
  function HandleConflicts<T>(conflictType: string, outcome: Outcome<T>): (r: Outcome<T>)
    ensures outcome.Returned? ==> r == outcome
    ensures outcome.Threw? && outcome.exc.DbDuplicateEntry? ==>
      r == Threw(Conflict(conflictType, outcome.exc.message))
    ensures outcome.Threw? && outcome.exc.DbError? ==>
      r == if outcome.exc.inner == IntegrityError then Threw(Conflict(conflictType, outcome.exc.message)) else outcome
    ensures outcome.Threw? && (outcome.exc.Conflict? || outcome.exc.OtherException?) ==> r == outcome
  {
    match outcome
    case Returned(_) => outcome
    case Threw(DbDuplicateEntry(msg)) => Threw(Conflict(conflictType, msg))
    case Threw(DbError(msg, inner)) => if inner == IntegrityError then Threw(Conflict(conflictType, msg)) else outcome
    case Threw(_) => outcome
  }

  /** Wrapping twice changes nothing beyond wrapping once: the outer
      decorator sees only conflicts and the errors the inner one let by. */
  lemma HandleConflictsIdempotent<T>(conflictType: string, outcome: Outcome<T>)
    ensures HandleConflicts(conflictType, HandleConflicts(conflictType, outcome)) == HandleConflicts(conflictType, outcome)
  {
  }

  /** The only exceptions the decorator lets out are conflicts, database
      errors without an integrity violation, and exceptions it does not
      handle. */
  lemma HandleConflictsLeavesNoIntegrityError<T>(conflictType: string, outcome: Outcome<T>)
    ensures var r := HandleConflicts(conflictType, outcome);
      r.Threw? ==> !r.exc.DbDuplicateEntry? && !(r.exc.DbError? && r.exc.inner == IntegrityError)
  {
  }
}
