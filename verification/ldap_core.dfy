/** The directory-independent logic of the LDAP backend base class: converting
    scalars to and from their LDAP text form, the query-scope lookup, paging
    over a list of model objects sorted by id, and the attribute lists sent
    with an add and a modify request. */
module LdapCore {
  import opened Wrappers
  import opened Python
  import opened Ordering

  /** The LDAP text forms of the two booleans. */
  const LdapValues: map<string, bool> := map["TRUE" := true, "FALSE" := false]

  /** Query scopes of python-ldap (`SCOPE_ONELEVEL`, `SCOPE_SUBTREE`). */
  datatype Scope = OneLevel | Subtree

  /** Exceptions raised by the helpers. */
  datatype LdapError =
    | InvalidScope(scope: string)   // ValueError from ldap_scope
    | ForbiddenAction(action: string)
    | KeyError(key: string)
    | IndexError(index: int)
    | TypeError                     // `None + list` in create
    | UnicodeEncodeError(text: string)  // `str()` of non-ASCII text

  /** A Python value handed to `safe_iter`: a list, or any other object. */
  datatype Attribute = Items(items: seq<Value>) | One(v: Value)

  /** Modification kinds of an LDAP modify request (section 4.6 of RFC 4511). */
  datatype ModOp = ModAdd | ModReplace | ModDelete

  /** One `(op, attribute type, values)` triple of a modlist; `values` is
      `None` for a delete of the whole attribute. */
  datatype Mod = Mod(op: ModOp, attr: string, values: Option<seq<Value>>)

  /** What `update` sends: nothing, or one modify request on the entry of
      the object `id` (the entry's DN is looked up from `id`). */
  datatype UpdateCall = NoCall | ModifyCall(id: string, mods: seq<Mod>)

  /** The attribute list and the id of the entry `create` adds. */
  datatype AddRequest = AddRequest(id: Value, attrs: seq<(string, seq<Value>)>)

  /** The per-class settings `BaseLdap.__init__` reads from configuration. */
  datatype Config = Config(
    optionsName: string,
    allowCreate: bool,
    allowUpdate: bool,
    attributeMapping: map<string, string>,
    attributeIgnore: seq<string>,
    structuralClasses: Option<seq<string>>,   // None is the class default
    objectClass: Option<string>,
    useDumbMember: bool,
    dumbMember: string)

  /** The marker pair `_get_page_markers` returns. */
  datatype Markers = Markers(prev: Option<string>, next: Option<string>)

  // ---------------------------------------------------------------------
  // Value codec

  /** `py2ldap`: booleans become TRUE/FALSE and anything else is written
      with `str()`. Text is `unicode`, not a byte `str`, so it does not take
      the pass-through branch: `str()` encodes it as ASCII and raises
      `UnicodeEncodeError` for any other character. */
  function Py2Ldap(v: Value): (r: Result<string, LdapError>)
    ensures r.Success? <==> !v.Str? || IsAscii(v.s)
    ensures r.Failure? ==> r.error == UnicodeEncodeError(v.s)
    ensures v.Str? && r.Success? ==> r.value == v.s
    ensures v.Bool? ==> r.Success? && r.value in LdapValues && LdapValues[r.value] == v.b
    ensures v.Null? ==> r == Success("None")
    ensures v.Int? ==> r == Success(ToStr(v))
  {
    match v
    case Str(s) => if IsAscii(s) then Success(s) else Failure(UnicodeEncodeError(s))
    case Bool(b) => Success(if b then "TRUE" else "FALSE")
    case _ => Success(ToStr(v))
  }

  /** Text with a character outside ASCII cannot be written. */
  lemma Py2LdapRejectsNonAscii()
    ensures Py2Ldap(Str("Jos\U{e9}")) == Failure(UnicodeEncodeError("Jos\U{e9}"))
    ensures Py2Ldap(Str("Jose")) == Success("Jose")
  {
    assert "Jos\U{e9}"[3] as int == 233;
    assert IsAscii("Jose") by {
      assert forall i :: 0 <= i < 4 ==> "Jose"[i] as int < 128;
    }
  }

  /** `ldap2py`: TRUE/FALSE become booleans, text `int()` accepts becomes an
      integer, and any other text stays a string. */
  function Ldap2Py(s: string): (r: Value)
    ensures r.Bool? <==> s in LdapValues
    ensures r.Int? <==> s !in LdapValues && ParseInt(s).Some?
    ensures r.Str? <==> s !in LdapValues && ParseInt(s).None?
    ensures r.Str? ==> r.s == s
    ensures r.Bool? ==> r.b == LdapValues[s]
  {
    if s in LdapValues then Bool(LdapValues[s])
    else match ParseInt(s)
      case Some(n) => Int(n)
      case None => Str(s)
  }

  /** Booleans and integers survive a trip through their LDAP text form. */
  lemma Ldap2PyOfPy2Ldap(v: Value)
    requires v.Bool? || v.Int?
    ensures Py2Ldap(v).Success? && Ldap2Py(Py2Ldap(v).value) == v
  {
    if v.Int? {
      ParseIntOfToStr(v.i);
      IntTextIsNotBoolText(v.i);
      assert Py2Ldap(v).value == IntToString(v.i);
    } else {
      assert Py2Ldap(v).value in LdapValues;
    }
  }

  lemma IntTextIsNotBoolText(i: int)
    ensures IntToString(i) !in LdapValues
  {
    var s := IntToString(i);
    assert s[0] == '-' || IsDigit(s[0]);
    assert s != "TRUE" && s != "FALSE" by {
      assert "TRUE"[0] == 'T' && "FALSE"[0] == 'F';
    }
  }

  /** Text can be written exactly when it is ASCII, and then survives the
      trip exactly when it reads neither as a boolean nor as an integer. */
  lemma Ldap2PyOfText(s: string)
    ensures Py2Ldap(Str(s)).Success? <==> IsAscii(s)
    ensures IsAscii(s) ==> (Ldap2Py(Py2Ldap(Str(s)).value) == Str(s) <==> s !in LdapValues && ParseInt(s).None?)
  {
  }

  /** Python 2 `int()` skips whitespace between the sign and the digits, so
      such text reads back as an integer, not as a string. */
  lemma Ldap2PyOfSpacedSign()
    ensures Ldap2Py("- 1") == Int(-1)
    ensures Ldap2Py("+\t7") == Int(7)
  {
    assert "- 1" == ['-'] + (" " + "1") && "+\t7" == ['+'] + ("\t" + "7");
    ParseIntOfSpacedSign('-', " ", "1");
    ParseIntOfSpacedSign('+', "\t", "7");
    assert DigitsValue("1") == 1 && DigitsValue("7") == 7 by {
      assert "1"[..0] == [] && "7"[..0] == [];
    }
    assert "- 1" !in LdapValues && "+\t7" !in LdapValues by {
      assert "- 1"[0] == '-' && "+\t7"[0] == '+';
      assert "TRUE"[0] == 'T' && "FALSE"[0] == 'F';
    }
  }

  /** `None` is written as the text "None" and comes back as that string. */
  lemma Ldap2PyOfNone()
    ensures Py2Ldap(Null).Success? && Ldap2Py(Py2Ldap(Null).value) == Str("None")
  {
    assert ParseInt("None").None? by {
      NoSpaceStripped("None");
    }
  }

  /** `safe_iter`: `None` yields nothing, a list yields its elements, any
      other value yields itself once. */
  function SafeIter(a: Attribute): (r: seq<Value>)
    ensures a.Items? ==> r == a.items
    ensures a.One? ==> |r| <= 1 && (r == [] <==> a.v.Null?)
    ensures forall x :: x in r ==> (a.Items? && x in a.items) || (a.One? && x == a.v)
  {
    match a
    case Items(xs) => xs
    case One(v) => if v.Null? then [] else [v]
  }

  /** Wrapping a value that is not `None` in a one-element list, as `create`
      and `update` do, does not change what `safe_iter` yields. */
  lemma SafeIterOfSingleton(v: Value)
    requires !v.Null?
    ensures SafeIter(Items([v])) == SafeIter(One(v)) == [v]
  {
  }

  // ---------------------------------------------------------------------
  // Scope

  /** The configuration name of a scope. */
  function ScopeName(sc: Scope): string {
    match sc
    case OneLevel => "one"
    case Subtree => "sub"
  }

  /** `ldap_scope`: only "one" and "sub" are known; anything else raises. */
  function LdapScope(s: string): (r: Result<Scope, LdapError>)
    ensures r.Success? <==> s == "one" || s == "sub"
    ensures r.Success? ==> ScopeName(r.value) == s
    ensures r.Failure? ==> r.error == InvalidScope(s)
  {
    if s == "one" then Success(OneLevel)
    else if s == "sub" then Success(Subtree)
    else Failure(InvalidScope(s))
  }

  /** Every scope is found again under its configuration name. */
  lemma LdapScopeOfName(sc: Scope)
    ensures LdapScope(ScopeName(sc)) == Success(sc)
  {
  }

  // ---------------------------------------------------------------------
  // Paging

  /** `s[:n]` with Python's slice rules for a negative `n`. */
  function PyTake<T>(s: seq<T>, n: int): (r: seq<T>)
    ensures |r| <= |s| && r == s[..|r|]
    ensures n >= 0 ==> |r| == if n < |s| then n else |s|
    ensures n < 0 ==> |r| == if |s| + n > 0 then |s| + n else 0
  {
    if n >= 0 then (if n < |s| then s[..n] else s)
    else if |s| + n > 0 then s[..|s| + n] else []
  }

  /** `s[j]` with Python's negative indices; `Failure` is the `IndexError`. */
  function PyIndex<T>(s: seq<T>, j: int): (r: Result<T, LdapError>)
    ensures r.Success? <==> -|s| <= j < |s|
    ensures 0 <= j < |s| ==> r == Success(s[j])
  {
    if 0 <= j < |s| then Success(s[j])
    else if -|s| <= j < 0 then Success(s[|s| + j])
    else Failure(IndexError(j))
  }

  /** `[x for x in s if key(x) > m]`. */
  function KeysAbove<T(!new)>(s: seq<T>, key: T -> string, m: string): (r: seq<T>)
    ensures forall x :: x in r ==> Below(m, key(x))
    ensures forall x :: multiset(r)[x] == if Below(m, key(x)) then multiset(s)[x] else 0
    ensures |r| <= |s|
  {
    if |s| == 0 then []
    else
      assert s == [s[0]] + s[1..];
      (if Below(m, key(s[0])) then [s[0]] else []) + KeysAbove(s[1..], key, m)
  }

  /** Selecting by key keeps a sorted list sorted. */
  lemma {:induction false} KeysAboveSorted<T(!new)>(s: seq<T>, key: T -> string, m: string)
    requires SortedBy(s, key)
    ensures SortedBy(KeysAbove(s, key, m), key)
  {
    if |s| > 0 {
      assert SortedBy(s[1..], key) by {
        assert forall i :: 0 <= i < |s| - 1 ==> s[1..][i] == s[i + 1];
      }
      KeysAboveSorted(s[1..], key, m);
      var t := KeysAbove(s[1..], key, m);
      if Below(m, key(s[0])) {
        forall j | 0 <= j < |t|
          ensures AtMost(key(s[0]), key(t[j]))
        {
          assert multiset(t)[t[j]] > 0;
          HeadAtMostLater(s, key, t[j]);
        }
        ConsSorted(s[0], t, key);
        assert KeysAbove(s, key, m) == [s[0]] + t;
      } else {
        assert KeysAbove(s, key, m) == t;
      }
    }
  }

  /** An item is wanted on a page opened at `marker`; an absent or empty
      marker wants every item. */
  predicate Wanted<T>(marker: Option<string>, key: T -> string, x: T) {
    marker.None? || marker.value == "" || Below(marker.value, key(x))
  }

  /** The wanted items of `lst` in key order, before the cut to `limit`. */
  function SortedWanted<T(!new)>(marker: Option<string>, lst: seq<T>, key: T -> string): (q: seq<T>)
    ensures SortedBy(q, key)
    ensures forall x :: multiset(q)[x] == if Wanted(marker, key, x) then multiset(lst)[x] else 0
  {
    var s := Sort(lst, key);
    if marker.None? || marker.value == "" then s
    else
      KeysAboveSorted(s, key, marker.value);
      KeysAbove(s, key, marker.value)
  }

  lemma TakeOfSorted<T>(q: seq<T>, limit: int, key: T -> string)
    requires SortedBy(q, key)
    ensures SortedBy(PyTake(q, limit), key)
    ensures multiset(q) == multiset(PyTake(q, limit)) + multiset(q[|PyTake(q, limit)|..])
  {
    var r := PyTake(q, limit);
    assert q == r + q[|r|..];
    assert SortedBy(r, key) by {
      forall i, j | 0 <= i < j < |r|
        ensures AtMost(key(r[i]), key(r[j]))
      {
        assert r[i] == q[i] && r[j] == q[j];
      }
    }
  }

  /** `_get_page`: sort by key, keep the items after a non-empty marker, and
      cut the result to `limit` items. */
  function GetPage<T(!new)>(marker: Option<string>, limit: int, lst: seq<T>, key: T -> string): (r: seq<T>)
    ensures SortedBy(r, key)
    ensures limit >= 0 ==> |r| <= limit
    ensures forall x :: x in r ==> Wanted(marker, key, x)
    ensures multiset(r) <= multiset(lst)
  {
    var q := SortedWanted(marker, lst, key);
    TakeOfSorted(q, limit, key);
    PyTake(q, limit)
  }

  /** A page is the beginning of the wanted items in key order: a wanted item
      is left off only when the page is full, and then it sorts after every
      item on the page. */
  lemma GetPageIsFirstOfWanted<T(!new)>(marker: Option<string>, limit: nat, lst: seq<T>, key: T -> string, x: T)
    requires Wanted(marker, key, x)
    requires multiset(GetPage(marker, limit, lst, key))[x] < multiset(lst)[x]
    ensures |GetPage(marker, limit, lst, key)| == limit
    ensures forall y :: y in GetPage(marker, limit, lst, key) ==> AtMost(key(y), key(x))
  {
    var q := SortedWanted(marker, lst, key);
    var r := GetPage(marker, limit, lst, key);
    TakeOfSorted(q, limit, key);
    assert r == PyTake(q, limit);
    assert x in multiset(q[|r|..]);
    var k :| 0 <= k < |q[|r|..]| && q[|r|..][k] == x;
    assert q[|r| + k] == x;
    forall y | y in r
      ensures AtMost(key(y), key(x))
    {
      var j :| 0 <= j < |r| && r[j] == y;
      assert q[j] == y;
    }
  }

  /** The index `_get_page_markers` stops its scan at: the first item whose
      key is at least `m`, otherwise the last index the loop reached (0 for
      an empty list). */
  function MarkerPosition<T>(s: seq<T>, key: T -> string, m: string): (i: nat)
    ensures |s| == 0 ==> i == 0
    ensures |s| > 0 ==> i < |s|
    ensures forall j :: 0 <= j < i ==> !AtMost(m, key(s[j]))
    ensures 0 < |s| && i < |s| - 1 ==> AtMost(m, key(s[i]))
  {
    MarkerPositionFrom(s, key, m, 0)
  }

  function MarkerPositionFrom<T>(s: seq<T>, key: T -> string, m: string, from: nat): (i: nat)
    requires from == 0 || from < |s|
    requires forall j :: 0 <= j < from ==> !AtMost(m, key(s[j]))
    ensures from <= i
    ensures |s| == 0 ==> i == 0
    ensures |s| > 0 ==> i < |s|
    ensures forall j :: 0 <= j < i ==> !AtMost(m, key(s[j]))
    ensures 0 < |s| && i < |s| - 1 ==> AtMost(m, key(s[i]))
    decreases |s| - from
  {
    if |s| == 0 || from == |s| - 1 || AtMost(m, key(s[from])) then from
    else MarkerPositionFrom(s, key, m, from + 1)
  }

  /** A key of some item of `lst`. */
  ghost predicate IsKeyOf<T>(k: string, lst: seq<T>, key: T -> string) {
    exists j :: 0 <= j < |lst| && key(lst[j]) == k
  }

  /** `key(s[j])`, or the `IndexError` Python raises. */
  function KeyAt<T>(s: seq<T>, j: int, key: T -> string): (r: Result<Option<string>, LdapError>)
    ensures r.Success? <==> -|s| <= j < |s|
    ensures r.Success? ==> r.value.Some? && IsKeyOf(r.value.value, s, key)
    ensures 0 <= j < |s| ==> r == Success(Some(key(s[j])))
  {
    match PyIndex(s, j)
    case Success(x) =>
      assert 0 <= j < |s| ==> s[j] == x;
      assert j < 0 ==> s[|s| + j] == x;
      Success(Some(key(x)))
    case Failure(e) => Failure(e)
  }

  /** The no-marker branch of `_get_page_markers` on the sorted list `s`. */
  function MarkersFromStart<T>(s: seq<T>, limit: int, key: T -> string): (r: Result<Markers, LdapError>)
    ensures r.Success? ==> r.value.prev.None?
    ensures r.Success? ==> (r.value.next.Some? <==> |s| > limit + 1)
    ensures r.Success? && r.value.next.Some? ==> IsKeyOf(r.value.next.value, s, key)
    ensures 0 <= limit ==> r.Success?
    ensures 0 <= limit < |s| - 1 ==> r == Success(Markers(None, Some(key(s[limit]))))
  {
    if |s| <= limit + 1 then Success(Markers(None, None))
    else
      var nxt :- KeyAt(s, limit, key);
      Success(Markers(None, nxt))
  }

  /** The marker branch of `_get_page_markers` once the scan stopped at `i`. */
  function MarkersAround<T>(s: seq<T>, i: nat, limit: int, key: T -> string): (r: Result<Markers, LdapError>)
    requires i == 0 || i < |s|
    ensures r.Success? && r.value.prev.Some? ==> IsKeyOf(r.value.prev.value, s, key)
    ensures r.Success? && r.value.next.Some? ==> IsKeyOf(r.value.next.value, s, key)
    ensures 0 <= limit ==> r.Success?
    ensures 0 <= limit ==> (r.value.prev.Some? <==> i > limit)
    ensures 0 <= limit && i > limit ==> r.value.prev == Some(key(s[i - limit]))
    ensures 0 <= limit ==> (r.value.next.Some? <==> i + limit < |s| - 1)
    ensures 0 <= limit && i + limit < |s| - 1 ==> r.value.next == Some(key(s[i + limit]))
  {
    var prv := if i <= limit then Success(None) else KeyAt(s, i - limit, key);
    var nxt := if i + limit >= |s| - 1 then Success(None) else KeyAt(s, i + limit, key);
    match (prv, nxt)
    case (Failure(e), _) => Failure(e)
    case (Success(p), Failure(e)) => Failure(e)
    case (Success(p), Success(n)) => Success(Markers(p, n))
  }

  /** Every key of the sorted list is a key of the original list. */
  lemma SortedKeyIsKey<T>(lst: seq<T>, key: T -> string, k: string)
    requires IsKeyOf(k, Sort(lst, key), key)
    ensures IsKeyOf(k, lst, key)
  {
    var s := Sort(lst, key);
    var j :| 0 <= j < |s| && key(s[j]) == k;
    assert s[j] in multiset(s);
    assert s[j] in multiset(lst);
    var i :| 0 <= i < |lst| && lst[i] == s[j];
  }

  /** `_get_page_markers` as written: the markers of the previous and the
      next page around the page opened at `marker`. */
  function GetPageMarkers<T>(marker: Option<string>, limit: int, lst: seq<T>, key: T -> string): (r: Result<Markers, LdapError>)
    ensures |lst| < limit ==> r == Success(Markers(None, None))
    ensures limit >= 0 ==> r.Success?
    ensures r.Success? && r.value.prev.Some? ==> IsKeyOf(r.value.prev.value, lst, key)
    ensures r.Success? && r.value.next.Some? ==> IsKeyOf(r.value.next.value, lst, key)
    ensures marker.None? && limit <= |lst| && r.Success? ==>
      r.value.prev.None? && (r.value.next.Some? <==> |lst| > limit + 1)
    ensures marker.None? && 0 <= limit < |lst| - 1 ==>
      r == Success(Markers(None, Some(key(Sort(lst, key)[limit]))))
    ensures marker.Some? && 0 <= limit <= |lst| ==>
      r == MarkersAround(Sort(lst, key), MarkerPosition(Sort(lst, key), key, marker.value), limit, key)
  {
    if |lst| < limit then Success(Markers(None, None))
    else
      var s := Sort(lst, key);
      var r := if marker.None? then MarkersFromStart(s, limit, key)
        else MarkersAround(s, MarkerPosition(s, key, marker.value), limit, key);
      assert r.Success? && r.value.prev.Some? ==> IsKeyOf(r.value.prev.value, lst, key) by {
        if r.Success? && r.value.prev.Some? {
          SortedKeyIsKey(lst, key, r.value.prev.value);
        }
      }
      assert r.Success? && r.value.next.Some? ==> IsKeyOf(r.value.next.value, lst, key) by {
        if r.Success? && r.value.next.Some? {
          SortedKeyIsKey(lst, key, r.value.next.value);
        }
      }
      r
  }

  // ---------------------------------------------------------------------
  // The first-page marker

  lemma {:induction false} SortOfSorted<T>(s: seq<T>, key: T -> string)
    requires SortedBy(s, key)
    ensures Sort(s, key) == s
  {
    if |s| > 0 {
      SortOfSorted(s[1..], key);
      assert s == [s[0]] + s[1..];
    }
  }

  lemma StrictIsSorted<T>(s: seq<T>, key: T -> string)
    requires StrictlySortedBy(s, key)
    ensures SortedBy(s, key)
  {
  }

  /** On a list sorted by strictly increasing keys, the items whose key is
      above `m` are the suffix that starts at the first such item. */
  lemma {:induction false} KeysAboveIsSuffix<T(!new)>(s: seq<T>, key: T -> string, m: string, k: nat)
    requires k <= |s|
    requires forall j :: 0 <= j < k ==> !Below(m, key(s[j]))
    requires forall j :: k <= j < |s| ==> Below(m, key(s[j]))
    ensures KeysAbove(s, key, m) == s[k..]
    decreases |s|
  {
    if |s| > 0 {
      var t := s[1..];
      var k' := if k == 0 then 0 else k - 1;
      assert forall j :: 0 <= j < k' ==> !Below(m, key(t[j])) by {
        forall j | 0 <= j < k'
          ensures !Below(m, key(t[j]))
        {
          assert t[j] == s[j + 1];
        }
      }
      assert forall j :: k' <= j < |t| ==> Below(m, key(t[j])) by {
        forall j | k' <= j < |t|
          ensures Below(m, key(t[j]))
        {
          assert t[j] == s[j + 1];
        }
      }
      KeysAboveIsSuffix(t, key, m, k');
      KeysAboveStep(s, key, m);
      if k == 0 {
        assert Below(m, key(s[0]));
        assert s[k..] == [s[0]] + t;
      } else {
        assert !Below(m, key(s[0]));
        DropOfTail(s, k);
      }
    }
  }

  lemma DropOfTail<T>(s: seq<T>, k: nat)
    requires 1 <= k <= |s|
    ensures s[k..] == s[1..][k - 1..]
  {
  }

  lemma KeysAboveStep<T(!new)>(s: seq<T>, key: T -> string, m: string)
    requires |s| > 0
    ensures KeysAbove(s, key, m) == (if Below(m, key(s[0])) then [s[0]] else []) + KeysAbove(s[1..], key, m)
  {
  }

  /** As written, the no-marker branch hands out the key of the item right
      after the first page, and the page opened at that marker starts one
      item later still: the item at position `limit` is on neither page. */
  lemma FirstPageMarkerSkipsItem<T(!new)>(lst: seq<T>, key: T -> string, limit: int)
    requires StrictlySortedBy(lst, key)
    requires 1 <= limit && limit + 1 < |lst|
    ensures GetPageMarkers(None, limit, lst, key) == Success(Markers(None, Some(key(lst[limit]))))
    ensures lst[limit] !in GetPage(None, limit, lst, key)
    ensures lst[limit] !in GetPage(Some(key(lst[limit])), limit, lst, key)
  {
    StrictIsSorted(lst, key);
    SortOfSorted(lst, key);
    var k := key(lst[limit]);
    BelowIrreflexive(k);
    assert GetPage(None, limit, lst, key) == lst[..limit];
    assert Below(key(lst[0]), k);
    assert k != "";
  }

  /** The skipped item on a three-entry directory with one entry per page:
      the first page shows "a" and hands out the marker "b", and neither that
      page nor the page opened at "b" shows "b". */
  lemma FirstPageMarkerSkipsItemExample()
    ensures GetPageMarkers(None, 1, ["a", "b", "c"], (x: string) => x) == Success(Markers(None, Some("b")))
    ensures "b" !in GetPage(None, 1, ["a", "b", "c"], (x: string) => x)
    ensures "b" !in GetPage(Some("b"), 1, ["a", "b", "c"], (x: string) => x)
  {
    var lst := ["a", "b", "c"];
    var key := (x: string) => x;
    assert Below("a", "b") && Below("b", "c") && Below("a", "c");
    assert StrictlySortedBy(lst, key);
    FirstPageMarkerSkipsItem(lst, key, 1);
  }

  /** `_get_page_markers` with the no-marker branch corrected: the next
      marker is the key of the last item on the first page, handed out when
      more items follow, as the marker branch already does. */
  function GetPageMarkersIntended<T>(marker: Option<string>, limit: int, lst: seq<T>, key: T -> string): (r: Result<Markers, LdapError>)
    ensures |lst| < limit ==> r == Success(Markers(None, None))
    ensures limit >= 0 ==> r.Success?
    ensures r.Success? && r.value.prev.Some? ==> IsKeyOf(r.value.prev.value, lst, key)
    ensures r.Success? && r.value.next.Some? ==> IsKeyOf(r.value.next.value, lst, key)
    ensures marker.None? && 1 <= limit < |lst| ==>
      r == Success(Markers(None, Some(key(Sort(lst, key)[limit - 1]))))
    ensures marker.Some? ==> r == GetPageMarkers(marker, limit, lst, key)
  {
    if |lst| < limit then Success(Markers(None, None))
    else if marker.Some? then GetPageMarkers(marker, limit, lst, key)
    else
      var s := Sort(lst, key);
      if 1 <= limit < |s| then
        assert IsKeyOf(key(s[limit - 1]), s, key);
        SortedKeyIsKey(lst, key, key(s[limit - 1]));
        Success(Markers(None, Some(key(s[limit - 1]))))
      else Success(Markers(None, None))
  }

  lemma FirstPageOfSorted<T(!new)>(lst: seq<T>, key: T -> string, limit: nat)
    requires SortedBy(lst, key)
    ensures GetPage(None, limit, lst, key) == PyTake(lst, limit)
  {
    SortOfSorted(lst, key);
  }

  lemma PageAfterOfStrict<T(!new)>(lst: seq<T>, key: T -> string, limit: int)
    requires StrictlySortedBy(lst, key)
    requires 1 <= limit <= |lst|
    requires key(lst[limit - 1]) != ""
    ensures GetPage(Some(key(lst[limit - 1])), limit, lst, key) == PyTake(lst[limit..], limit)
  {
    StrictIsSorted(lst, key);
    var m := key(lst[limit - 1]);
    PageOfSorted(lst, key, m, limit);
    forall j | 0 <= j < limit
      ensures !Below(m, key(lst[j]))
    {
      if j < limit - 1 {
        BelowAsymmetric(key(lst[j]), m);
      } else {
        BelowIrreflexive(m);
      }
    }
    KeysAboveIsSuffix(lst, key, m, limit);
  }

  lemma PageOfSorted<T(!new)>(lst: seq<T>, key: T -> string, m: string, limit: int)
    requires SortedBy(lst, key) && m != ""
    ensures GetPage(Some(m), limit, lst, key) == PyTake(KeysAbove(lst, key, m), limit)
  {
    SortOfSorted(lst, key);
    assert SortedWanted(Some(m), lst, key) == KeysAbove(lst, key, m);
  }

  /** With the corrected marker, the page opened at the first page's next
      marker continues exactly where the first page stopped. */
  lemma IntendedMarkerContinuesFirstPage<T(!new)>(lst: seq<T>, key: T -> string, limit: int)
    requires StrictlySortedBy(lst, key)
    requires 1 <= limit < |lst|
    requires key(lst[0]) != ""
    ensures GetPageMarkersIntended(None, limit, lst, key) == Success(Markers(None, Some(key(lst[limit - 1]))))
    ensures GetPage(None, limit, lst, key) + GetPage(Some(key(lst[limit - 1])), limit, lst, key)
         == PyTake(lst, 2 * limit)
  {
    StrictIsSorted(lst, key);
    SortOfSorted(lst, key);
    assert key(lst[limit - 1]) != "" by {
      if limit > 1 {
        assert Below(key(lst[0]), key(lst[limit - 1]));
      }
    }
    FirstPageOfSorted(lst, key, limit);
    PageAfterOfStrict(lst, key, limit);
    TakeThenTake(lst, limit);
  }

  lemma TakeThenTake<T>(s: seq<T>, n: nat)
    requires n <= |s|
    ensures PyTake(s, n) + PyTake(s[n..], n) == PyTake(s, 2 * n)
  {
    if 2 * n <= |s| {
      assert s[n..][..n] == s[n..2 * n];
      assert s[..2 * n] == s[..n] + s[n..2 * n];
    } else {
      assert s[..n] + s[n..] == s;
    }
  }

  // ---------------------------------------------------------------------
  // Attribute lists of create and update

  /** The LDAP attribute type a model key is stored under. */
  function MapAttr(cfg: Config, k: string): string {
    if k in cfg.attributeMapping then cfg.attributeMapping[k] else k
  }

  /** Keys `create` and `update` never write: the id and ignored keys. */
  predicate Skipped(cfg: Config, k: string) {
    k == "id" || k in cfg.attributeIgnore
  }

  /** The modification one `(k, v)` pair of `update` asks for, given the
      object's current value `o` of `k`: delete a value set to `None`, add a
      value that was `None`, replace a value that differs. */
  function EntryMods(cfg: Config, k: string, v: Value, o: Value): (r: seq<Mod>)
    ensures |r| <= 1
    ensures r == [] <==> (v.Null? && o.Null?) || (!v.Null? && Equal(o, v))
    ensures forall m :: m in r ==> m.attr == MapAttr(cfg, k)
    ensures forall m :: m in r ==> (m.op == ModDelete <==> v.Null?) && (m.op == ModAdd <==> !v.Null? && o.Null?)
    ensures forall m :: m in r ==> m.values == if v.Null? then None else Some([v])
  {
    if v.Null? then
      (if !o.Null? then [Mod(ModDelete, MapAttr(cfg, k), None)] else [])
    else if !Equal(o, v) then
      [Mod(if o.Null? then ModAdd else ModReplace, MapAttr(cfg, k), Some([v]))]
    else []
  }

  /** Some supplied key that `update` writes is stored under `a`. */
  ghost predicate Touched(cfg: Config, values: seq<(string, Value)>, a: string) {
    exists i :: 0 <= i < |values| && !Skipped(cfg, values[i].0) && MapAttr(cfg, values[i].0) == a
  }

  /** The modlist `update` builds from the supplied values, in their order;
      `old_obj[k]` raises `KeyError` for a key the old object lacks. */
  function Modlist(cfg: Config, values: seq<(string, Value)>, prior: map<string, Value>): (r: Result<seq<Mod>, LdapError>)
    ensures r.Success? <==> forall i :: 0 <= i < |values| && !Skipped(cfg, values[i].0) ==> values[i].0 in prior
    ensures r.Failure? ==> (r.error.KeyError? && r.error.key !in prior &&
      exists i :: 0 <= i < |values| && !Skipped(cfg, values[i].0) && values[i].0 == r.error.key)
    ensures r.Success? ==> |r.value| <= |values|
    ensures r.Success? ==> forall m :: m in r.value ==> Touched(cfg, values, m.attr)
    decreases |values|
  {
    if |values| == 0 then Success([])
    else
      var k := values[0].0;
      var rest := Modlist(cfg, values[1..], prior);
      assert forall i :: 1 <= i < |values| ==> values[1..][i - 1] == values[i];
      if Skipped(cfg, k) then rest
      else if k !in prior then Failure(KeyError(k))
      else match rest
        case Failure(e) => Failure(e)
        case Success(ms) =>
          var r := EntryMods(cfg, k, values[0].1, prior[k]) + ms;
          assert forall m :: m in r ==> Touched(cfg, values, m.attr) by {
            forall m | m in r
              ensures Touched(cfg, values, m.attr)
            {
              if m !in ms {
                assert m.attr == MapAttr(cfg, values[0].0);
              }
            }
          }
          Success(r)
  }

  /** `update`: refused unless updates are allowed; otherwise one modify
      request carrying the modlist, or no request when nothing changed. */
  function Update(cfg: Config, id: string, values: seq<(string, Value)>, prior: map<string, Value>): (r: Result<UpdateCall, LdapError>)
    ensures !cfg.allowUpdate ==> r == Failure(ForbiddenAction("LDAP " + cfg.optionsName + " update"))
    ensures cfg.allowUpdate ==> (r.Success? <==> Modlist(cfg, values, prior).Success?)
    ensures r.Success? ==> (r.value.NoCall? <==> Modlist(cfg, values, prior).value == [])
    ensures r.Success? && r.value.ModifyCall? ==> r.value.id == id && r.value.mods == Modlist(cfg, values, prior).value
  {
    if !cfg.allowUpdate then Failure(ForbiddenAction("LDAP " + cfg.optionsName + " update"))
    else match Modlist(cfg, values, prior)
      case Failure(e) => Failure(e)
      case Success(ms) => Success(if |ms| == 0 then NoCall else ModifyCall(id, ms))
  }

  /** An LDAP entry: attribute type to its values. */
  type Entry = map<string, seq<Value>>

  /** The values of `xs` that are not listed in `vs`. */
  function Without(xs: seq<Value>, vs: seq<Value>): (r: seq<Value>)
    ensures forall x :: x in r <==> x in xs && x !in vs
  {
    if |xs| == 0 then []
    else (if xs[0] in vs then [] else [xs[0]]) + Without(xs[1..], vs)
  }

  /** What the directory does with one modification (section 4.6 of
      RFC 4511): add appends values, replace sets them, delete removes the
      listed values or, with none listed, the whole attribute. */
  function ApplyMod(e: Entry, m: Mod): (r: Entry)
    ensures forall a :: a != m.attr ==> (a in r <==> a in e) && (a in e ==> r[a] == e[a])
  {
    match m.op
    case ModAdd =>
      var vs := if m.values.Some? then m.values.value else [];
      e[m.attr := (if m.attr in e then e[m.attr] else []) + vs]
    case ModReplace =>
      if m.values.None? || m.values.value == [] then e - {m.attr} else e[m.attr := m.values.value]
    case ModDelete =>
      if m.values.None? || m.attr !in e then e - {m.attr}
      else
        var left := Without(e[m.attr], m.values.value);
        if left == [] then e - {m.attr} else e[m.attr := left]
  }

  function ApplyMods(e: Entry, ms: seq<Mod>): Entry
    decreases |ms|
  {
    if |ms| == 0 then e else ApplyMods(ApplyMod(e, ms[0]), ms[1..])
  }

  lemma {:induction false} ApplyModsConcat(e: Entry, a: seq<Mod>, b: seq<Mod>)
    ensures ApplyMods(e, a + b) == ApplyMods(ApplyMods(e, a), b)
    decreases |a|
  {
    if |a| == 0 {
      assert a + b == b;
    } else {
      assert (a + b)[0] == a[0];
      assert (a + b)[1..] == a[1..] + b;
      ApplyModsConcat(ApplyMod(e, a[0]), a[1..], b);
    }
  }

  /** Applying modifications that all name other attributes leaves `a` alone. */
  lemma {:induction false} ApplyModsFrame(e: Entry, ms: seq<Mod>, a: string)
    requires forall m :: m in ms ==> m.attr != a
    ensures (a in ApplyMods(e, ms) <==> a in e)
    ensures a in e ==> ApplyMods(e, ms)[a] == e[a]
    decreases |ms|
  {
    if |ms| > 0 {
      ApplyModsFrame(ApplyMod(e, ms[0]), ms[1..], a);
    }
  }

  /** Attribute `a` of `e` holds `v`: absent for `None`, else that one value. */
  predicate Holds(e: Entry, a: string, v: Value) {
    if v.Null? then a !in e else a in e && |e[a]| == 1 && Equal(e[a][0], v)
  }

  /** The modification for one pair leaves its attribute holding the new
      value and changes no other attribute. */
  lemma EntryModsEffect(cfg: Config, k: string, v: Value, o: Value, e: Entry)
    requires o.Null? ==> MapAttr(cfg, k) !in e
    requires !o.Null? ==> MapAttr(cfg, k) in e && e[MapAttr(cfg, k)] == [o]
    ensures Holds(ApplyMods(e, EntryMods(cfg, k, v, o)), MapAttr(cfg, k), v)
    ensures forall a :: a != MapAttr(cfg, k) ==>
      (a in ApplyMods(e, EntryMods(cfg, k, v, o)) <==> a in e) &&
      (a in e ==> ApplyMods(e, EntryMods(cfg, k, v, o))[a] == e[a])
  {
    var ms := EntryMods(cfg, k, v, o);
    EqualReflexive(v);
    if |ms| == 1 {
      assert ms[0] in ms;
      assert ApplyMods(e, ms) == ApplyMods(ApplyMod(e, ms[0]), []) == ApplyMod(e, ms[0]);
    }
  }

  /** The entry stores the old object: every written key is present in the
      old object, and its attribute holds the old value. */
  ghost predicate Mirrors(cfg: Config, e: Entry, values: seq<(string, Value)>, prior: map<string, Value>) {
    forall i :: 0 <= i < |values| && !Skipped(cfg, values[i].0) ==>
      values[i].0 in prior &&
      var a := MapAttr(cfg, values[i].0);
      (prior[values[i].0].Null? ==> a !in e) && (!prior[values[i].0].Null? ==> a in e && e[a] == [prior[values[i].0]])
  }

  /** Distinct written keys are stored under distinct attributes. */
  ghost predicate MappingInjective(cfg: Config, values: seq<(string, Value)>) {
    forall i, j :: 0 <= i < j < |values| && !Skipped(cfg, values[i].0) && !Skipped(cfg, values[j].0) ==>
      MapAttr(cfg, values[i].0) != MapAttr(cfg, values[j].0)
  }

  /** Applying the modlist of `update` to the entry that stores the prior
      object leaves every written attribute holding its new value and every
      other attribute as it was. */
  lemma {:induction false} ModlistBringsEntryUpToDate(cfg: Config, values: seq<(string, Value)>, prior: map<string, Value>, e: Entry)
    requires MappingInjective(cfg, values)
    requires Mirrors(cfg, e, values, prior)
    ensures Modlist(cfg, values, prior).Success?
    ensures forall i :: 0 <= i < |values| && !Skipped(cfg, values[i].0) ==>
      Holds(ApplyMods(e, Modlist(cfg, values, prior).value), MapAttr(cfg, values[i].0), values[i].1)
    ensures forall a :: !Touched(cfg, values, a) ==>
      (a in ApplyMods(e, Modlist(cfg, values, prior).value) <==> a in e) &&
      (a in e ==> ApplyMods(e, Modlist(cfg, values, prior).value)[a] == e[a])
    decreases |values|
  {
    if |values| == 0 {
      return;
    }
    var k := values[0].0;
    var v := values[0].1;
    var rest := values[1..];
    assert forall i :: 1 <= i < |values| ==> rest[i - 1] == values[i];
    assert MappingInjective(cfg, rest);
    var ms := Modlist(cfg, values, prior).value;
    if Skipped(cfg, k) {
      assert Mirrors(cfg, e, rest, prior);
      ModlistBringsEntryUpToDate(cfg, rest, prior, e);
      assert forall a :: Touched(cfg, rest, a) ==> Touched(cfg, values, a);
      return;
    }
    var a0 := MapAttr(cfg, k);
    var head := EntryMods(cfg, k, v, prior[k]);
    var e1 := ApplyMods(e, head);
    EntryModsEffect(cfg, k, v, prior[k], e);
    assert Mirrors(cfg, e1, rest, prior) by {
      forall i | 0 <= i < |rest| && !Skipped(cfg, rest[i].0)
        ensures MapAttr(cfg, rest[i].0) != a0
      {
        assert values[i + 1] == rest[i];
      }
    }
    ModlistBringsEntryUpToDate(cfg, rest, prior, e1);
    var tail := Modlist(cfg, rest, prior).value;
    assert ms == head + tail;
    ApplyModsConcat(e, head, tail);
    assert !Touched(cfg, rest, a0);
    assert forall a :: Touched(cfg, rest, a) ==> Touched(cfg, values, a) by {
      forall a | Touched(cfg, rest, a)
        ensures Touched(cfg, values, a)
      {
        var i :| 0 <= i < |rest| && !Skipped(cfg, rest[i].0) && MapAttr(cfg, rest[i].0) == a;
        assert values[i + 1] == rest[i];
      }
    }
  }

  /** Updating an object to the values it already holds sends no modify
      request. */
  lemma {:induction false} UpdateToCurrentValuesIsNoop(cfg: Config, id: string, values: seq<(string, Value)>)
    requires cfg.allowUpdate
    requires DistinctKeys(values)
    ensures Update(cfg, id, values, ToMap(values)) == Success(NoCall)
  {
    ToMapOfDistinct(values);
    ModlistOfCurrent(cfg, values, ToMap(values));
  }

  lemma {:induction false} ModlistOfCurrent(cfg: Config, values: seq<(string, Value)>, prior: map<string, Value>)
    requires forall i :: 0 <= i < |values| ==> values[i].0 in prior && prior[values[i].0] == values[i].1
    ensures Modlist(cfg, values, prior) == Success([])
    decreases |values|
  {
    if |values| > 0 {
      assert forall i :: 1 <= i < |values| ==> values[1..][i - 1] == values[i];
      ModlistOfCurrent(cfg, values[1..], prior);
      EqualReflexive(values[0].1);
    }
  }

  /** The `(type, [value])` attribute `create` sends for one supplied pair. */
  ghost predicate Written(cfg: Config, values: seq<(string, Value)>, p: (string, seq<Value>)) {
    exists i :: 0 <= i < |values| && !Skipped(cfg, values[i].0) && !values[i].1.Null? &&
      p == (MapAttr(cfg, values[i].0), [values[i].1])
  }

  /** The attributes `create` adds for the supplied values, in their order:
      the id, ignored keys and `None` values are left out. */
  function CreateAttrs(cfg: Config, values: seq<(string, Value)>): (r: seq<(string, seq<Value>)>)
    ensures |r| <= |values|
    ensures forall i :: 0 <= i < |values| && !Skipped(cfg, values[i].0) && !values[i].1.Null? ==>
      (MapAttr(cfg, values[i].0), [values[i].1]) in r
    ensures forall p :: p in r ==> Written(cfg, values, p)
    decreases |values|
  {
    if |values| == 0 then []
    else
      var (k, v) := values[0];
      var rest := CreateAttrs(cfg, values[1..]);
      assert forall i :: 1 <= i < |values| ==> values[1..][i - 1] == values[i];
      var here := if Skipped(cfg, k) || v.Null? then [] else [(MapAttr(cfg, k), [v])];
      assert forall p :: p in here ==> Written(cfg, values, p);
      here + rest
  }

  /** `structural_classes + [object_class]` as values: an `object_class`
      of `None` is kept as `None` in the list. */
  function ObjectClasses(structural: seq<string>, objectClass: Option<string>): (r: seq<Value>)
    ensures |r| == |structural| + 1
    ensures forall j :: 0 <= j < |structural| ==> r[j] == Str(structural[j])
    ensures r[|structural|] == if objectClass.Some? then Str(objectClass.value) else Null
    decreases |structural|
  {
    if |structural| == 0 then [if objectClass.Some? then Str(objectClass.value) else Null]
    else [Str(structural[0])] + ObjectClasses(structural[1..], objectClass)
  }

  /** A `groupOfNames` entry: that class is among the structural classes
      or is the object class. */
  predicate IsGroupOfNames(structural: seq<string>, objectClass: Option<string>) {
    "groupOfNames" in structural || objectClass == Some("groupOfNames")
  }

  /** `create`: refused unless creation is allowed; otherwise the add request
      for the entry of `values['id']` carrying the object classes, the
      supplied attributes and, for a group with a placeholder member, that
      member. */
  function Create(cfg: Config, values: seq<(string, Value)>): (r: Result<AddRequest, LdapError>)
    ensures !cfg.allowCreate ==> r == Failure(ForbiddenAction("LDAP " + cfg.optionsName + " create"))
    ensures cfg.allowCreate && cfg.structuralClasses.None? ==> r == Failure(TypeError)
    ensures cfg.allowCreate && cfg.structuralClasses.Some? ==> (r.Success? <==> Lookup(values, "id").Some?)
    ensures r.Failure? && cfg.allowCreate && cfg.structuralClasses.Some? ==> r.error == KeyError("id")
    ensures r.Success? ==> r.value.id == Lookup(values, "id").value
    ensures r.Success? ==> (|r.value.attrs| > 0 &&
      r.value.attrs[0] == ("objectClass", ObjectClasses(cfg.structuralClasses.value, cfg.objectClass)))
    ensures r.Success? ==> forall i :: 0 <= i < |values| && !Skipped(cfg, values[i].0) && !values[i].1.Null? ==>
      (MapAttr(cfg, values[i].0), [values[i].1]) in r.value.attrs
    ensures r.Success? ==>
      var dumb := IsGroupOfNames(cfg.structuralClasses.value, cfg.objectClass) && cfg.useDumbMember;
      && (forall j :: 1 <= j < |r.value.attrs| - (if dumb then 1 else 0) ==> Written(cfg, values, r.value.attrs[j]))
      && (dumb ==> r.value.attrs[|r.value.attrs| - 1] == ("member", [Str(cfg.dumbMember)]))
  {
    if !cfg.allowCreate then Failure(ForbiddenAction("LDAP " + cfg.optionsName + " create"))
    else if cfg.structuralClasses.None? then Failure(TypeError)
    else
      var classes := ObjectClasses(cfg.structuralClasses.value, cfg.objectClass);
      assert Str("groupOfNames") in classes <==> IsGroupOfNames(cfg.structuralClasses.value, cfg.objectClass) by {
        var s := cfg.structuralClasses.value;
        if "groupOfNames" in s {
          var j :| 0 <= j < |s| && s[j] == "groupOfNames";
          assert classes[j] == Str("groupOfNames");
        }
      }
      var body := CreateAttrs(cfg, values);
      var member := if Str("groupOfNames") in classes && cfg.useDumbMember then [("member", [Str(cfg.dumbMember)])] else [];
      var attrs := [("objectClass", classes)] + body + member;
      assert forall j :: 1 <= j < 1 + |body| ==> attrs[j] == body[j - 1];
      match Lookup(values, "id")
      case None => Failure(KeyError("id"))
      case Some(id) => Success(AddRequest(id, attrs))
  }
}
