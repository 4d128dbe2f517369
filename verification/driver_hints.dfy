/** Driver hints: the list of filter records a list call hands to a backend.
    A backend removes the filters it satisfies; whatever remains the caller
    must still apply. */
module DriverHints {
  import opened Wrappers
  import opened Python

  /** One entry of the list: the dict `add_filter` appends. `kind` is the
      entry's `type`, always "filter" for entries `add_filter` makes. */
  datatype Hint = Hint(name: string, value: Value, comparator: string, caseSensitive: bool, kind: string)

  type Hints = seq<Hint>

  predicate IsFilter(h: Hint) {
    h.kind == "filter"
  }

  /** An exact filter on `name`. */
  predicate IsExactFilterFor(h: Hint, name: string) {
    IsFilter(h) && h.name == name && h.comparator == "equals"
  }

  /** Position `i` holds the first exact filter on `name`. */
  ghost predicate FirstExactAt(hints: Hints, i: int, name: string) {
    0 <= i < |hints| && IsExactFilterFor(hints[i], name) &&
    forall j :: 0 <= j < i ==> !IsExactFilterFor(hints[j], name)
  }

  /** `add_filter`: appends one filter; comparator and case sensitivity
      default to "equals" and `False`. */
  function AddFilter(hints: Hints, name: string, value: Value, comparator: string := "equals",
                     caseSensitive: bool := false): (r: Hints)
    ensures |r| == |hints| + 1 && r[..|hints|] == hints
    ensures IsFilter(r[|hints|]) && r[|hints|].name == name && r[|hints|].value == value
    ensures r[|hints|].comparator == comparator && r[|hints|].caseSensitive == caseSensitive
  {
    hints + [Hint(name, value, comparator, caseSensitive, "filter")]
  }

  /** `filters()`: the entries of type filter, in list order. */
  function Filters(hints: Hints): (r: Hints)
    ensures forall h :: h in r <==> h in hints && IsFilter(h)
    ensures forall h :: multiset(r)[h] == if IsFilter(h) then multiset(hints)[h] else 0
    ensures |r| <= |hints|
  {
    if |hints| == 0 then []
    else
      assert hints == [hints[0]] + hints[1..];
      (if IsFilter(hints[0]) then [hints[0]] else []) + Filters(hints[1..])
  }

  /** Every entry `filters()` returns is a filter. */
  lemma FiltersAreFilters(hints: Hints)
    ensures forall i :: 0 <= i < |Filters(hints)| ==> IsFilter(Filters(hints)[i])
  {
    var r := Filters(hints);
    assert forall i :: 0 <= i < |r| ==> r[i] in r;
  }

  /** Selecting filters distributes over concatenation, so appending to the
      list only ever appends to `filters()`. */
  lemma {:induction false} FiltersOfConcat(a: Hints, b: Hints)
    ensures Filters(a + b) == Filters(a) + Filters(b)
  {
    if |a| == 0 {
      assert a + b == b;
    } else {
      assert (a + b)[0] == a[0];
      assert (a + b)[1..] == a[1..] + b;
      FiltersOfConcat(a[1..], b);
    }
  }

  /** `filters()` of a list that holds only filters is the list itself. */
  lemma {:induction false} FiltersOfFilters(hints: Hints)
    ensures Filters(Filters(hints)) == Filters(hints)
  {
    if |hints| > 0 {
      FiltersOfFilters(hints[1..]);
      FiltersOfConcat(if IsFilter(hints[0]) then [hints[0]] else [], Filters(hints[1..]));
    }
  }

  /** After `add_filter`, `filters()` gains exactly the new filter at its end. */
  lemma AddFilterExtendsFilters(hints: Hints, name: string, value: Value, comparator: string, caseSensitive: bool)
    ensures Filters(AddFilter(hints, name, value, comparator, caseSensitive))
         == Filters(hints) + [Hint(name, value, comparator, caseSensitive, "filter")]
  {
    var h := Hint(name, value, comparator, caseSensitive, "filter");
    FiltersOfConcat(hints, [h]);
    assert Filters([h]) == [h] + Filters([h][1..]);
  }

  /** `get_exact_filter_by_name`: the first exact filter on `name`, or `None`. */
  function GetExactFilterByName(hints: Hints, name: string): (r: Option<Hint>)
    ensures r.None? <==> forall i :: 0 <= i < |hints| ==> !IsExactFilterFor(hints[i], name)
    ensures r.Some? ==> exists i :: FirstExactAt(hints, i, name) && hints[i] == r.value
  {
    if |hints| == 0 then None
    else if IsExactFilterFor(hints[0], name) then Some(hints[0])
    else
      var r := GetExactFilterByName(hints[1..], name);
      assert forall i :: 1 <= i < |hints| ==> hints[1..][i - 1] == hints[i];
      assert r.Some? ==> exists i :: FirstExactAt(hints, i, name) && hints[i] == r.value by {
        if r.Some? {
          var i :| FirstExactAt(hints[1..], i, name) && hints[1..][i] == r.value;
          assert FirstExactAt(hints, i + 1, name);
        }
      }
      r
  }

  lemma {:induction false} GetExactOfConcat(a: Hints, b: Hints, name: string)
    ensures GetExactFilterByName(a + b, name)
         == if GetExactFilterByName(a, name).Some? then GetExactFilterByName(a, name) else GetExactFilterByName(b, name)
  {
    if |a| == 0 {
      assert a + b == b;
    } else {
      assert (a + b)[0] == a[0];
      assert (a + b)[1..] == a[1..] + b;
      GetExactOfConcat(a[1..], b, name);
    }
  }

  /** After adding an exact filter on `name`, looking `name` up finds the
      earlier exact filter when there is one and the new filter otherwise. */
  lemma AddThenGetExact(hints: Hints, name: string, value: Value)
    ensures GetExactFilterByName(AddFilter(hints, name, value), name)
         == if GetExactFilterByName(hints, name).Some? then GetExactFilterByName(hints, name)
            else Some(Hint(name, value, "equals", false, "filter"))
  {
    GetExactOfConcat(hints, [Hint(name, value, "equals", false, "filter")], name);
  }
}
