# Keystone backend helpers in Dafny

This project models the pure, sequential helpers that OpenStack Keystone's identity backends and federation controllers are built on:

- **LDAP backend base class** (`LdapCore`):
  - the scalar codec between Python values and LDAP text (`py2ldap`, `ldap2py`, `safe_iter`);
  - the search-scope lookup;
  - paging over a list sorted by id (`_get_page`, `_get_page_markers`);
  - the attribute lists sent with an add request (`create`) and a modify request (`update`).
- **SQL backend** (`SqlCore`):
  - the `DictBase` mapping between flat dicts and model rows with an `extra` bag;
  - the string-length guard run on model construction;
  - the consumption of driver hints by `Base._filter`;
  - the mapping of database errors to `Conflict` by `handle_conflicts`.
- **Driver hints** (`DriverHints`): the append-only list of filters a list call hands to a backend.
- **Federation controllers** (`Federation`):
  - parameter gating (`check_immutable_params`, `filter_params`);
  - the self and related links of identity providers and protocols;
  - the defaults of `create_identity_provider`.
- **JSON-Home relations** (`JsonHome`): the four relation builders and the `Parameters` constants.

Supporting modules:

- `Wrappers`: `Option` and `Result`.
- `Python`:
  - the scalar values of the source (`None`, booleans, integers, strings);
  - `str()`, Python 2 `int()` on text, and `==`;
  - dicts given as key/value pairs.
- `Ordering`: Python's string order and a stable sort (`list.sort` with a key).

Error paths are modelled as values:

- a Python exception becomes a `Failure` carrying the exception's kind;
- indexing outside a list gives `IndexError`;
- a missing dict key gives `KeyError`.

Dicts whose iteration order decides the output are sequences of pairs, for example the `values` of `create` and `update`. Dicts that are only looked up are maps.

Some inputs come from code this project does not include. They are parameters:

| input | parameter |
|---|---|
| the URL `IdentityProvider.base_url()` | `idpBase` |
| `utils.attr_as_boolean` | `asBoolean` |
| the current LDAP object `update` reads when `old_obj` is `None` | `prior` |

## Model

| member | source | states |
|---|---|---|
| LdapCore.Py2Ldap | keystone/common/ldap/core.py:31-38 | text (`unicode`) is written unchanged iff it is ASCII, and otherwise `str()` raises `UnicodeEncodeError`; a boolean is written as the TRUE/FALSE text that the reader maps back to it; `None` and integers are written as their `str()` |
| LdapCore.Py2LdapRejectsNonAscii | keystone/common/ldap/core.py:31-38 | "José" cannot be written and raises `UnicodeEncodeError`, while "Jose" is written unchanged |
| LdapCore.Ldap2Py | keystone/common/ldap/core.py:42-51 | TRUE/FALSE read as booleans; otherwise text that Python 2 `int()` accepts reads as an integer, where that text is whitespace, an optional sign, more whitespace, decimal digits and whitespace; any other text stays the same string (each case iff) |
| LdapCore.Ldap2PyOfSpacedSign | keystone/common/ldap/core.py:42-51 | "- 1" reads as the integer -1 and "+\t7" as 7, because Python 2 `int()` skips whitespace after the sign |
| LdapCore.Ldap2PyOfPy2Ldap | keystone/common/ldap/core.py:27-51 | every boolean and every integer survives writing to LDAP text and reading back |
| LdapCore.Ldap2PyOfText | keystone/common/ldap/core.py:31-51 | text can be written iff it is ASCII; ASCII text survives the trip iff it is neither TRUE/FALSE nor integer text |
| LdapCore.Ldap2PyOfNone | keystone/common/ldap/core.py:33-51 | `None` is written as "None" and read back as that string, not as `None` |
| LdapCore.SafeIter | keystone/common/ldap/core.py:54-61 | `None` yields nothing; a list yields its elements in order; any other value yields exactly itself once |
| LdapCore.SafeIterOfSingleton | keystone/common/ldap/core.py:54-61 | for any value other than `None`, a one-element list holding it and the bare value both yield exactly that value |
| LdapCore.LdapScope | keystone/common/ldap/core.py:64-69 | succeeds iff the scope is "one" or "sub"; the result is the scope of that name; the error names the rejected text |
| LdapCore.LdapScopeOfName | keystone/common/ldap/core.py:29-31 | each scope is found again under its configuration name |
| LdapCore.GetPage | keystone/common/ldap/core.py:279-285 | a page is in ascending key order, holds at most `limit` items, and holds only wanted items (key above a non-empty marker); it is a sub-multiset of the list |
| LdapCore.GetPageIsFirstOfWanted | keystone/common/ldap/core.py:279-285 | a wanted item is left off a page only when the page is full, and then every item on the page sorts at or before it |
| LdapCore.GetPageMarkers | keystone/common/ldap/core.py:287-316 | `(None, None)` for a list shorter than `limit`; with no marker, prev is `None` and next exists iff `len > limit + 1`, being the key at position `limit`; with a marker, the markers are those around the scan position; every marker returned is the key of a list item; a non-negative limit never raises |
| LdapCore.MarkersAround | keystone/common/ldap/core.py:300-316 | prev exists iff the scan position `i > limit`; next exists iff `i + limit < len - 1`; both are keys of in-bounds items |
| LdapCore.MarkerPosition | keystone/common/ldap/core.py:300-304 | the scan stops at the first key at or above the marker, or at the last index when there is none |
| LdapCore.FirstPageMarkerSkipsItem | keystone/common/ldap/core.py:293-298 | on a strictly sorted list, the item at position `limit` is on neither the first page nor the page opened at the returned next marker |
| LdapCore.FirstPageMarkerSkipsItemExample | keystone/common/ldap/core.py:293-298 | on keys a, b, c with one item per page, the first page shows a, the next marker is b, and the page opened at b does not show b |
| LdapCore.GetPageMarkersIntended | keystone/common/ldap/core.py:287-316 | the corrected no-marker branch hands out the key of the last item on the first page when more items follow; the marker branch is unchanged |
| LdapCore.IntendedMarkerContinuesFirstPage | keystone/common/ldap/core.py:279-298 | with the corrected marker, the first page followed by the page opened at its next marker is the first `2 * limit` items |
| LdapCore.EntryMods | keystone/common/ldap/core.py:327-340 | a `None` value over a set value gives DELETE; a value over `None` gives ADD; a different value gives REPLACE; an unchanged value gives nothing (iff) |
| LdapCore.Modlist | keystone/common/ldap/core.py:322-340 | succeeds iff every written key exists on the old object; otherwise a `KeyError` naming a written key it lacks; the id and ignored keys are skipped; every modification targets a written attribute |
| LdapCore.ModlistBringsEntryUpToDate | keystone/common/ldap/core.py:322-344 | applying the modlist with LDAP modify semantics to the stored entry gives every written attribute its new value and leaves every other attribute unchanged |
| LdapCore.UpdateToCurrentValuesIsNoop | keystone/common/ldap/core.py:318-344 | updating an object to the values it already holds sends no modify request |
| LdapCore.Update | keystone/common/ldap/core.py:318-344 | refused with `ForbiddenAction("LDAP <name> update")` unless updates are allowed; no modify call iff the modlist is empty; otherwise one modify call on the entry of the given id carrying exactly the modlist |
| LdapCore.CreateAttrs | keystone/common/ldap/core.py:218-223 | every written, non-`None` value appears under its mapped attribute type; nothing else appears |
| LdapCore.Create | keystone/common/ldap/core.py:210-229 | refused unless creation is allowed; a structural-class list of `None` raises `TypeError`; otherwise succeeds iff `values` has an id; the object classes come first, with an object class of `None` kept as `None`; then the written attributes; then the placeholder member exactly when `groupOfNames` is a structural class or the object class and placeholders are configured |
| DriverHints.AddFilter | keystone/common/driver_hints.py:36-39 | the list grows by one entry at the end and is otherwise unchanged; the new entry is a filter with the given name, value, comparator and case sensitivity, which default to "equals" and `False` |
| DriverHints.AddFilterExtendsFilters | keystone/common/driver_hints.py:36-54 | after `add_filter`, `filters()` is the old filters followed by exactly one new filter with the given comparator and case sensitivity |
| DriverHints.Filters | keystone/common/driver_hints.py:41-54 | exactly the entries of type filter, each as often as in the list |
| DriverHints.FiltersOfConcat | keystone/common/driver_hints.py:41-54 | selecting filters distributes over concatenation, so the list order is kept |
| DriverHints.FiltersOfFilters | keystone/common/driver_hints.py:41-54 | selecting filters twice is selecting once |
| DriverHints.GetExactFilterByName | keystone/common/driver_hints.py:56-61 | `None` iff no exact filter has the name; otherwise the first such entry |
| DriverHints.AddThenGetExact | keystone/common/driver_hints.py:36-61 | after adding an exact filter on a name, the lookup returns the earlier exact filter if there is one, else the new filter |
| SqlCore.Construct | keystone/common/sql/core.py:81-96 | construction fails iff some string column with a non-zero declared length receives a value whose `str()` is longer; the error carries that text, column and length; otherwise the values are kept unchanged |
| SqlCore.FromDictFails | keystone/common/sql/core.py:117-124 | `from_dict` fails exactly when a declared attribute overflows its string column |
| SqlCore.FromDict | keystone/common/sql/core.py:117-124 | declared attributes stay top-level; every other key except `extra` goes into the bag; a caller's `extra` is dropped; values are unchanged |
| SqlCore.ToDict | keystone/common/sql/core.py:126-141 | the bag entries overlaid by every declared attribute (attributes win a clash), plus an `extra` copy only when asked for |
| SqlCore.DictRoundTrip | keystone/common/sql/core.py:117-141 | `to_dict(from_dict(d))` is `d` without its `extra` key, with any missing declared attribute as `None` |
| SqlCore.DictRoundTripComplete | keystone/common/sql/core.py:117-141 | a dict with every declared attribute and no `extra` key comes back unchanged |
| SqlCore.GetItem | keystone/common/sql/core.py:143-146 | a bag entry shadows the attribute of the same name; otherwise the attribute; `AttributeError` iff neither exists |
| SqlCore.GetItemAgreesWithToDict | keystone/common/sql/core.py:117-146 | on a row built by `from_dict`, indexing agrees with `to_dict` on every key |
| SqlCore.GetItemShadowsAttribute | keystone/common/sql/core.py:126-146 | where bag and attribute share a key, indexing sees the bag value while `to_dict` reports the attribute |
| SqlCore.Filter | keystone/common/sql/core.py:160-247 | `_filter` succeeds iff every filter names a column; otherwise it raises `AttributeError` for the first filter, in `filters()` order, that names no column; on success the hints left are exactly the entries that are not satisfied filters, in order, and the query gains the ilike clauses in filter order, then one equality clause when an exact filter exists |
| SqlCore.LoopComputes | keystone/common/sql/core.py:172-240 | when every filter names a column and no removal misses, the loop appends the pattern clauses in filter order, merges the exact filters into the equality map and leaves the hints with each satisfied filter removed once |
| SqlCore.LoopFails | keystone/common/sql/core.py:172-240 | the loop raises only `AttributeError` for the first filter that names no column, or `ValueError` when removing the satisfied filters from the hints in turn misses one; when it returns, every filter names a column |
| SqlCore.RemovalsLeaveUnsatisfied | keystone/common/sql/core.py:208-236 | removing each satisfied filter of `filters()` from the list in turn never misses, so no `ValueError` is raised, and leaves exactly the unsatisfied entries |
| SqlCore.FilterMergesExactFilters | keystone/common/sql/core.py:211-245 | every exact filter is consumed whatever its case sensitivity; the equality clause holds, for each name, the value of the last exact filter on it |
| SqlCore.ExactMapLastWins | keystone/common/sql/core.py:211-232 | a later exact filter on a name overrides an earlier one |
| SqlCore.FilterKeepsUnsatisfied | keystone/common/sql/core.py:194-206 | a case-sensitive or unrecognised non-exact filter stays in the hints |
| SqlCore.PatternMeaning | keystone/common/sql/core.py:197-202 | for a value holding neither `%` nor `_`, a text matches the pattern of a contains, startswith or endswith filter under LIKE matching iff it contains, starts with or ends with the value's `str()` |
| SqlCore.RemoveFirst | keystone/common/sql/core.py:208 | `list.remove` fails iff no entry equals the filter under Python `==`; otherwise the list shrinks by one |
| SqlCore.RemoveFirstDropsFirstSame | keystone/common/sql/core.py:208 | `list.remove` drops the first entry equal to the filter and keeps the entries before and after it in order |
| SqlCore.HandleConflicts | keystone/common/sql/core.py:267-285 | a duplicate entry, or a database error caused by an integrity error, becomes `Conflict(type, str(e))`; any other error propagates unchanged; a returned value passes through |
| SqlCore.HandleConflictsIdempotent | keystone/common/sql/core.py:267-285 | applying the decorator twice is applying it once |
| SqlCore.HandleConflictsLeavesNoIntegrityError | keystone/common/sql/core.py:267-285 | no duplicate-entry or integrity error escapes the decorator |
| Federation.CheckImmutableParams | keystone/contrib/federation/controllers.py:46-73 | returns normally iff the keys of `ref` are within the allowed set (default: the class's mutable parameters); otherwise the error names the class and the non-empty set of disallowed keys |
| Federation.FilterParams | keystone/contrib/federation/controllers.py:75-96 | the keys kept are those of `ref` within the allowed set (default: the public parameters), with values unchanged |
| Federation.FilterParamsIdempotent | keystone/contrib/federation/controllers.py:75-96 | filtering twice is filtering once |
| Federation.FilteredPassesCheck | keystone/contrib/federation/controllers.py:46-96 | a dict filtered to a key set passes the check against that set; a dict that passes is left unchanged by filtering |
| Federation.IdpSelfLink | keystone/contrib/federation/controllers.py:120-125 | succeeds iff the id is a string and `links` is absent or a dict; sets the self link to `base/id` and changes nothing else |
| Federation.IdpRelatedLinks | keystone/contrib/federation/controllers.py:105-118 | the protocols link extends an existing self link, or else `base/id`; it fails iff `links` is unusable or there is no self link and no string id, with `KeyError` when the id is missing; nothing else changes |
| Federation.IdpWrapMember | keystone/contrib/federation/controllers.py:105-131 | succeeds iff the id is a string and `links` is absent or a dict; the self link is `base/id` and the protocols link is `base/id/protocols`; other keys and links are untouched; wrapped as `identity_provider` |
| Federation.ProtocolRelatedLinks | keystone/contrib/federation/controllers.py:218-230 | succeeds iff `idp_id` is a string and `links` is usable; sets the identity provider link to `base/idp_id` and changes nothing else; a missing `idp_id` raises `KeyError` |
| Federation.ProtocolSelfLink | keystone/contrib/federation/controllers.py:199-216 | the self link is the existing identity provider link, or else `base/idp_id`, followed by `/protocols/id`; it fails iff `links` is unusable, the id is not a string, or there is neither such a link nor a string `idp_id`; nothing else changes |
| Federation.ProtocolWrapMember | keystone/contrib/federation/controllers.py:199-237 | succeeds iff `idp_id` and `id` are strings and `links` is usable; the identity provider link is `base/idp_id` and the self link is `base/idp_id/protocols/id`; only `id`, `mapping_id` and `links` are kept |
| Federation.ProtocolHidesIdpId | keystone/contrib/federation/controllers.py:196-237 | a wrapped protocol never exposes `idp_id` and holds no key outside `id`, `mapping_id`, `links` |
| Federation.ProtocolLinkUnderIdpLink | keystone/contrib/federation/controllers.py:105-237 | a protocol's self link is its identity provider's protocols link followed by `/id`; its identity provider link is that provider's self link |
| Federation.CreateIdpRequest | keystone/contrib/federation/controllers.py:148-155 | `description` defaults to "" and `enabled` to `False`; the request is accepted iff it carries no other key; the error lists the others |
| Federation.CreateIdpRequestSettled | keystone/contrib/federation/controllers.py:148-155 | an accepted request, defaults filled in, is accepted again unchanged |
| Federation.CreateIdpResponseIsPublic | keystone/contrib/federation/controllers.py:156-158 | the response holds only public identity provider parameters, so filtering it again to them changes nothing |
| Federation.CreateIdpResponse | keystone/contrib/federation/controllers.py:156-158 | succeeds iff the stored id is a string; the response keeps only `id`, `description` and `enabled` of the stored record, with their stored values, and a `links` dict holding exactly the self link `base/id` and the protocols link `base/id/protocols` |
| JsonHome.BuildersReadBack | keystone/common/json_home.py:16-37 | the URL each of the four builders gives reads back as the relation it was built for; for the extension builders, when the extension name and version hold no '/' |
| JsonHome.Parse | keystone/common/json_home.py:16-37 | any relation read back from a string builds that same string again |
| JsonHome.ParseOfBuild | keystone/common/json_home.py:16-37 | every relation built by the four builders reads back as itself, when its extension name and version hold no '/' |
| JsonHome.BuildInjective | keystone/common/json_home.py:16-37 | distinct relations of that form have distinct URLs |
| JsonHome.ResourceIsNotParameter | keystone/common/json_home.py:16-30 | a resource relation never equals a parameter relation |
| JsonHome.ExtensionBuildersInjectiveInName | keystone/common/json_home.py:21-37 | for a fixed extension and version, both extension builders are injective in the final name |
| JsonHome.SlashInExtensionCollides | keystone/common/json_home.py:21-25 | with a '/' in the extension name, two different relations share a URL |
| JsonHome.ParametersAreParameterRelations | keystone/common/json_home.py:40-48 | each `Parameters` constant reads back as the parameter relation of its own lower-case name |
| JsonHome.EndpointIdSpelledOut | keystone/common/json_home.py:28-44 | `ENDPOINT_ID` is `http://docs.openstack.org/api/openstack-identity/3/param/endpoint_id` |

## Left out

- Token persistence, the user token index, the revocation list and flushing are not part of this model. The token backends' source is not part of it either; only tests describe their behaviour.
- keystone/common/kvs/backends/memcached.py, because it is concurrency and network code: a distributed lock with randomised backoff over a memcached client.
- LDAP network I/O, because it needs a directory server:
  - connections, searches, and `_id_to_dn` with its DN escaping;
  - the `add_s`/`modify_s` calls themselves: `create` and `update` return the request they would send;
  - `update` fetching the old object when `old_obj` is `None`: the caller passes `prior`.
- SQLAlchemy plumbing, because it is library code:
  - sessions and transactions;
  - `JsonBlob` serialisation;
  - the SQL meaning of `ilike` and `filter_by`: the query is the list of clauses added.
- `Base.filter`, which only skips `_filter` when `hints` is `None`.
- Column introspection is reduced to a list of named columns with a type. `getattr` on a class attribute that is not a column (a method, say) is treated as a missing attribute.
- SqlCore.Construct: the `extra` keyword is assumed to be a JSON column, as it is in every model, so it is never length-checked. The guard also does not look at keyword arguments that are not columns; those are the declarative constructor's business.
- SqlCore.Construct: when several columns overflow, the source raises for whichever comes first in dict iteration order. The model reports the first in column declaration order, and its contract only says the reported column overflows.
- SqlCore.Filter: when `_filter` raises, the hints it already removed stay removed in the source. The model returns only the error.
- Federation.CheckImmutableParams: the source raises for one key popped from the blocked set, which one being unspecified. The error here carries the whole blocked set.
- Federation.CreateIdpRequest: its check is `check_immutable_params`, so its error also carries the whole blocked set, where the source reports one key.
- `utils.attr_as_boolean`, `V3Controller.base_url` and `_normalize_dict` are not part of this model. The first two are parameters; the request dict is taken as already normalised.
- `create_identity_provider`, `list_*`, `get_*`, `update_*` and `delete_*` controller methods beyond their parameter handling. The backend calls and response rendering are I/O.
- keystone/contrib/federation/utils.py, keystone/controllers.py and keystone/contrib/endpoint_filter/routers.py: a JSON-schema validator wrapper, response rendering and route registration, with no sequential logic of their own.
- Python.ParseInt: models Python 2 `int()` on text in base 10: surrounding whitespace, an optional sign, whitespace after the sign, and ASCII decimal digits. Python 2 rejects underscores, and so does the model. Non-ASCII digits and the `long` fallback for large values are not modelled, because LDAP attribute text here is ASCII and integers are unbounded.
- LdapCore.Py2Ldap: text values stand for Python 2 `unicode`, which is what decoded JSON requests hold. A byte `str` takes the source's pass-through branch and is written unchanged even when it holds non-ASCII bytes; byte strings are not modelled.
- SqlCore.Construct: the length guard counts characters, as `len` does for `unicode`. For a byte `str` the source counts bytes; byte strings are not modelled.
- LdapCore.Ldap2Py, LdapCore.Py2Ldap: values are `None`, booleans, integers and strings. Floats and other objects are not modelled, and `str()` of them is not either.
- LdapCore.GetPage, LdapCore.GetPageMarkers: the source sorts the caller's list in place with `lst.sort(key=key)`. The model returns the page or markers and does not model the reordering the caller sees afterwards.
- LdapCore.GetPage, LdapCore.GetPageMarkers: `key` is any function to strings, standing in for the object's id. A falsy marker other than `None` and "" (such as 0) is not modelled.
- JsonHome.ParseOfBuild, JsonHome.BuildInjective: stated only for relations whose extension name and version hold no '/'. The builders do not escape '/', so the URL does not determine how a name containing one was split (`SlashInExtensionCollides`).
- SqlCore.PatternMeaning: `ilike` folds case, and `LikeMatch` compares characters exactly, so case folding is not modelled. A filter value holding `%` or `_` acts as a wildcard in the source; the lemma says nothing about such values.
- LdapCore.Update: the modify request names the object by its id. Finding the DN for that id (`_id_to_dn`) is LDAP I/O and is left out.
- SqlCore.RemoveFirst compares hint dicts field by field with Python `==` on the value. Dict equality over keys other than the five `add_filter` writes is not modelled.

## Findings

| source | as written | input that shows it | evidently intended | confidence | as-written member | corrected member |
|---|---|---|---|---|---|---|
| keystone/common/ldap/core.py:293-298 | with no marker, `_get_page_markers` returns `key(lst[limit])` as the next marker, and only when `len(lst) > limit + 1` | ids a, b, c with `limit` 1: the first page is [a], the next marker is "b", and `_get_page` at marker "b" returns [c], so b is never shown | return the key of the last item on the first page, `key(lst[limit - 1])`, whenever `len(lst) > limit`, as the marker branch does for later pages | not executed | LdapCore.FirstPageMarkerSkipsItem | LdapCore.GetPageMarkersIntended |
