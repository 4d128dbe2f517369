/** The federation controllers' parameter gating and link building for
    identity providers and their protocols. `base_url` of the identity
    provider collection is a parameter, `idpBase`. */
module Federation {
  import opened Wrappers
  import opened Python

  /** A value in a request or response dict: a scalar, or the `links`
      sub-dict of URL strings. */
  datatype Item = Scalar(v: Value) | Links(links: map<string, string>)

  type Ref = map<string, Item>

  datatype FedError =
    | ImmutableAttributeError(target: string, blocked: set<string>)
    | KeyError(key: string)
    | TypeError
    | AttributeError

  /** The two controller classes; the protocol controller inherits the
      gating class methods and overrides the parameter sets. */
  datatype Controller = IdentityProvider | FederationProtocol

  function ClassName(c: Controller): string {
    if c.IdentityProvider? then "IdentityProvider" else "FederationProtocol"
  }

  function MutableParameters(c: Controller): set<string> {
    if c.IdentityProvider? then {"description", "enabled"} else {"mapping_id"}
  }

  function PublicParameters(c: Controller): set<string> {
    if c.IdentityProvider? then {"id", "enabled", "description", "links"} else {"id", "mapping_id", "links"}
  }

  /** The `keys` argument, or the class default when it is `None`. */
  function Allowed(defaults: set<string>, keys: Option<set<string>>): set<string> {
    if keys.Some? then keys.value else defaults
  }

  /** `check_immutable_params`: a request may only carry allowed keys. The
      error lists every blocked key; the source reports one of them. */
  function CheckImmutableParams(c: Controller, ref: Ref, keys: Option<set<string>>): (r: Result<(), FedError>)
    ensures r.Success? <==> ref.Keys <= Allowed(MutableParameters(c), keys)
    ensures r.Failure? ==> (r.error.ImmutableAttributeError? && r.error.target == ClassName(c) &&
      r.error.blocked != {} && forall k :: k in r.error.blocked <==> k in ref && k !in Allowed(MutableParameters(c), keys))
  {
    var blocked := ref.Keys - Allowed(MutableParameters(c), keys);
    assert forall k :: k in ref.Keys && k !in Allowed(MutableParameters(c), keys) ==> k in blocked;
    if blocked == {} then Success(())
    else Failure(ImmutableAttributeError(ClassName(c), blocked))
  }

  /** `filter_params`: keeps only the allowed keys, values untouched. */
  function FilterParams(c: Controller, ref: Ref, keys: Option<set<string>>): (r: Ref)
    ensures r.Keys == ref.Keys * Allowed(PublicParameters(c), keys)
    ensures forall k :: k in r ==> r[k] == ref[k]
  {
    map k | k in ref && k in Allowed(PublicParameters(c), keys) :: ref[k]
  }

  /** Filtering twice keeps what filtering once keeps. */
  lemma FilterParamsIdempotent(c: Controller, ref: Ref, keys: Option<set<string>>)
    ensures FilterParams(c, FilterParams(c, ref, keys), keys) == FilterParams(c, ref, keys)
  {
  }

  /** A dict filtered down to a key set passes the check against that set:
      filtering is the repair for what the check rejects. */
  lemma FilteredPassesCheck(c: Controller, ref: Ref, allowed: set<string>)
    ensures CheckImmutableParams(c, FilterParams(c, ref, Some(allowed)), Some(allowed)).Success?
    ensures CheckImmutableParams(c, ref, Some(allowed)).Success? ==> FilterParams(c, ref, Some(allowed)) == ref
  {
  }

  // ---------------------------------------------------------------------
  // Links

  /** `'/'.join([a, b])`. */
  function Join(a: string, b: string): string {
    a + "/" + b
  }

  /** `ref[key]` used as a string: a missing key raises `KeyError`, a
      value that is not a string makes the join raise `TypeError`. */
  function TextAt(ref: Ref, key: string): (r: Result<string, FedError>)
    ensures r.Success? <==> key in ref && ref[key].Scalar? && ref[key].v.Str?
    ensures r.Success? ==> ref[key] == Scalar(Str(r.value))
    ensures key !in ref ==> r == Failure(KeyError(key))
  {
    if key !in ref then Failure(KeyError(key))
    else if ref[key].Scalar? && ref[key].v.Str? then Success(ref[key].v.s)
    else Failure(TypeError)
  }

  /** `ref.get('id')` used as a string: `None` fails the join too. */
  function TextGet(ref: Ref, key: string): (r: Result<string, FedError>)
    ensures r.Success? <==> key in ref && ref[key].Scalar? && ref[key].v.Str?
    ensures r.Success? ==> ref[key] == Scalar(Str(r.value))
    ensures r.Failure? ==> r.error == TypeError
  {
    if key in ref && ref[key].Scalar? && ref[key].v.Str? then Success(ref[key].v.s) else Failure(TypeError)
  }

  /** The `links` entry is absent or a dict, so `setdefault` gives a dict. */
  predicate LinksUsable(ref: Ref) {
    "links" !in ref || ref["links"].Links?
  }

  /** The link dict after `ref.setdefault('links', {})`. */
  function LinksOf(ref: Ref): map<string, string>
    requires LinksUsable(ref)
  {
    if "links" in ref then ref["links"].links else map[]
  }

  /** `ref.setdefault('links', {})` then `ref['links'][name] = url`;
      assigning into a non-dict raises `TypeError`. */
  function SetLink(ref: Ref, name: string, url: string): (r: Result<Ref, FedError>)
    ensures r.Success? <==> LinksUsable(ref)
    ensures r.Success? ==> (r.value.Keys == ref.Keys + {"links"} &&
      (forall k :: k in ref && k != "links" ==> r.value[k] == ref[k]) &&
      r.value["links"] == Links(LinksOf(ref)[name := url]))
  {
    if LinksUsable(ref) then Success(ref["links" := Links(LinksOf(ref)[name := url])]) else Failure(TypeError)
  }

  /** `after` is `ref` with the link `name` set to `url`: every other
      entry, and every other link, as before. */
  predicate LinkAdded(ref: Ref, after: Ref, name: string, url: string)
    requires LinksUsable(ref)
  {
    after.Keys == ref.Keys + {"links"} &&
    (forall k :: k in ref && k != "links" ==> after[k] == ref[k]) &&
    after["links"] == Links(LinksOf(ref)[name := url])
  }

  /** `ref['links'].get(name)` after `setdefault`; a non-dict has no `get`. */
  function GetLink(ref: Ref, name: string): (r: Result<Option<string>, FedError>)
    ensures r.Success? <==> LinksUsable(ref)
    ensures r.Success? ==> (r.value.Some? <==> name in LinksOf(ref))
    ensures r.Success? && r.value.Some? ==> r.value.value == LinksOf(ref)[name]
  {
    if !LinksUsable(ref) then Failure(AttributeError)
    else if name in LinksOf(ref) then Success(Some(LinksOf(ref)[name]))
    else Success(None)
  }

  /** The identity provider's `_add_self_referential_link`. */
  function IdpSelfLink(idpBase: string, ref: Ref): (r: Result<Ref, FedError>)
    ensures r.Success? <==> TextGet(ref, "id").Success? && LinksUsable(ref)
    ensures r.Success? ==> LinkAdded(ref, r.value, "self", Join(idpBase, ref["id"].v.s))
  {
    var id :- TextGet(ref, "id");
    SetLink(ref, "self", Join(idpBase, id))
  }

  /** The identity provider's `_add_related_links`: the protocols URL
      extends the existing self link, or `idpBase/id` when there is none. */
  function IdpRelatedLinks(idpBase: string, ref: Ref): (r: Result<Ref, FedError>)
    ensures r.Success? <==> LinksUsable(ref) && ("self" in LinksOf(ref) || TextAt(ref, "id").Success?)
    ensures r.Success? && "self" in LinksOf(ref) ==>
      LinkAdded(ref, r.value, "protocols", Join(LinksOf(ref)["self"], "protocols"))
    ensures r.Success? && "self" !in LinksOf(ref) ==>
      LinkAdded(ref, r.value, "protocols", Join(Join(idpBase, ref["id"].v.s), "protocols"))
    ensures LinksUsable(ref) && "self" !in LinksOf(ref) && "id" !in ref ==> r == Failure(KeyError("id"))
  {
    var existing :- GetLink(ref, "self");
    var base :- if existing.Some? then Success(existing.value)
                else (match TextAt(ref, "id") case Success(id) => Success(Join(idpBase, id)) case Failure(e) => Failure(e));
    SetLink(ref, "protocols", Join(base, "protocols"))
  }

  /** A wrapped member: `{member_name: ref}`. */
  datatype Wrapped = Wrapped(memberName: string, ref: Ref)

  /** The identity provider's `wrap_member`: self link first, then the
      related links. */
  function IdpWrapMember(idpBase: string, ref: Ref): (r: Result<Wrapped, FedError>)
    ensures r.Success? <==> TextGet(ref, "id").Success? && LinksUsable(ref)
    ensures r.Success? ==> ("links" in r.value.ref && r.value.ref["links"].Links? &&
      (var id := ref["id"].v.s;
      var links := r.value.ref["links"].links;
      r.value.memberName == "identity_provider" &&
      r.value.ref.Keys == ref.Keys + {"links"} &&
      (forall k :: k in ref && k != "links" ==> r.value.ref[k] == ref[k]) &&
      links == LinksOf(ref)["self" := Join(idpBase, id)]["protocols" := Join(Join(idpBase, id), "protocols")]))
  {
    match IdpSelfLink(idpBase, ref)
    case Failure(e) => Failure(e)
    case Success(withSelf) =>
      match IdpRelatedLinks(idpBase, withSelf)
      case Failure(e) => Failure(e)
      case Success(withRelated) => Success(Wrapped("identity_provider", withRelated))
  }

  /** The protocol's `_add_related_links`: the identity provider's URL. */
  function ProtocolRelatedLinks(idpBase: string, ref: Ref): (r: Result<Ref, FedError>)
    ensures r.Success? <==> TextAt(ref, "idp_id").Success? && LinksUsable(ref)
    ensures r.Success? ==> LinkAdded(ref, r.value, "identity_provider", Join(idpBase, ref["idp_id"].v.s))
    ensures "idp_id" !in ref ==> r == Failure(KeyError("idp_id"))
  {
    var idpId :- TextAt(ref, "idp_id");
    SetLink(ref, "identity_provider", Join(idpBase, idpId))
  }

  /** The protocol's `_add_self_referential_link`: the identity provider's
      URL, or `idpBase/idp_id` when it is missing, then `protocols/id`. */
  function ProtocolSelfLink(idpBase: string, ref: Ref): (r: Result<Ref, FedError>)
    ensures r.Success? <==>
      LinksUsable(ref) && ("identity_provider" in LinksOf(ref) || TextAt(ref, "idp_id").Success?) &&
      TextAt(ref, "id").Success?
    ensures r.Success? && "identity_provider" in LinksOf(ref) ==>
      LinkAdded(ref, r.value, "self", Join(Join(LinksOf(ref)["identity_provider"], "protocols"), ref["id"].v.s))
    ensures r.Success? && "identity_provider" !in LinksOf(ref) ==>
      LinkAdded(ref, r.value, "self", Join(Join(Join(idpBase, ref["idp_id"].v.s), "protocols"), ref["id"].v.s))
  {
    var existing :- GetLink(ref, "identity_provider");
    var base :- if existing.Some? then Success(existing.value)
                else (match TextAt(ref, "idp_id") case Success(i) => Success(Join(idpBase, i)) case Failure(e) => Failure(e));
    var id :- TextAt(ref, "id");
    SetLink(ref, "self", Join(Join(base, "protocols"), id))
  }

  /** The protocol's `wrap_member`: related link, self link, then only the
      public parameters are kept. */
  function ProtocolWrapMember(idpBase: string, ref: Ref): (r: Result<Wrapped, FedError>)
    ensures r.Success? <==> TextAt(ref, "idp_id").Success? && TextAt(ref, "id").Success? && LinksUsable(ref)
    ensures r.Success? ==> ("links" in r.value.ref && r.value.ref["links"].Links? &&
      (var idpId := ref["idp_id"].v.s;
      var links := r.value.ref["links"].links;
      r.value.memberName == "protocol" &&
      r.value.ref.Keys == (ref.Keys * {"id", "mapping_id"}) + {"links"} &&
      (forall k :: k in r.value.ref && k != "links" ==> r.value.ref[k] == ref[k]) &&
      links == LinksOf(ref)["identity_provider" := Join(idpBase, idpId)]
                           ["self" := Join(Join(Join(idpBase, idpId), "protocols"), ref["id"].v.s)]))
  {
    match ProtocolRelatedLinks(idpBase, ref)
    case Failure(e) => Failure(e)
    case Success(withRelated) =>
      match ProtocolSelfLink(idpBase, withRelated)
      case Failure(e) => Failure(e)
      case Success(withSelf) => Success(Wrapped("protocol", FilterParams(FederationProtocol, withSelf, None)))
  }

  /** A wrapped protocol never exposes its `idp_id`. */
  lemma ProtocolHidesIdpId(idpBase: string, ref: Ref)
    requires ProtocolWrapMember(idpBase, ref).Success?
    ensures "idp_id" !in ProtocolWrapMember(idpBase, ref).value.ref
    ensures ProtocolWrapMember(idpBase, ref).value.ref.Keys <= {"id", "mapping_id", "links"}
  {
  }

  /** A protocol's self link lies under the self link its identity
      provider gets from the identity provider controller. */
  lemma ProtocolLinkUnderIdpLink(idpBase: string, ref: Ref, idp: Ref)
    requires ProtocolWrapMember(idpBase, ref).Success?
    requires IdpWrapMember(idpBase, idp).Success?
    requires "id" in idp && idp["id"] == ref["idp_id"]
    ensures ProtocolWrapMember(idpBase, ref).value.ref["links"].links["self"]
         == IdpWrapMember(idpBase, idp).value.ref["links"].links["protocols"] + "/" + ref["id"].v.s
    ensures ProtocolWrapMember(idpBase, ref).value.ref["links"].links["identity_provider"]
         == IdpWrapMember(idpBase, idp).value.ref["links"].links["self"]
  {
  }

  // ---------------------------------------------------------------------
  // Identity provider creation

  /** `d.setdefault(key, value)`. */
  function SetDefault(d: Ref, key: string, value: Item): Ref {
    if key in d then d else d[key := value]
  }

  /** The request half of `create_identity_provider`: `description`
      defaults to the empty string and `enabled` to `False`, then only
      those two keys are accepted. */
  function CreateIdpRequest(body: Ref): (r: Result<Ref, FedError>)
    ensures r.Success? <==> body.Keys <= {"description", "enabled"}
    ensures r.Success? ==> (r.value.Keys == {"description", "enabled"} &&
      r.value["description"] == (if "description" in body then body["description"] else Scalar(Str(""))) &&
      r.value["enabled"] == (if "enabled" in body then body["enabled"] else Scalar(Bool(false))))
    ensures r.Failure? ==> r.error.ImmutableAttributeError? && r.error.blocked == body.Keys - {"description", "enabled"}
  {
    var withDefaults := SetDefault(SetDefault(body, "description", Scalar(Str(""))), "enabled", Scalar(Bool(false)));
    var _ :- CheckImmutableParams(IdentityProvider, withDefaults, Some({"description", "enabled"}));
    Success(withDefaults)
  }

  /** The response half of `create_identity_provider`: the stored record
      cut down to `id`, `description` and `enabled`, then wrapped. */
  function CreateIdpResponse(idpBase: string, stored: Ref): (r: Result<Wrapped, FedError>)
    ensures r.Success? <==> TextGet(stored, "id").Success?
    ensures r.Success? ==> (r.value.ref.Keys == (stored.Keys * {"id", "description", "enabled"}) + {"links"} &&
      (forall k :: k in r.value.ref && k != "links" ==> r.value.ref[k] == stored[k]) &&
      r.value.ref["links"].Links? &&
      (var self := Join(idpBase, stored["id"].v.s);
       r.value.ref["links"].links == map["self" := self, "protocols" := Join(self, "protocols")]))
  {
    IdpWrapMember(idpBase, FilterParams(IdentityProvider, stored, Some({"id", "description", "enabled"})))
  }

  /** Defaulting is settled by one pass: an accepted request is accepted
      again unchanged. */
  lemma CreateIdpRequestSettled(body: Ref)
    requires CreateIdpRequest(body).Success?
    ensures CreateIdpRequest(CreateIdpRequest(body).value) == CreateIdpRequest(body)
  {
  }

  /** The response shows only public parameters of an identity provider,
      so filtering it again to those parameters changes nothing. */
  lemma CreateIdpResponseIsPublic(idpBase: string, stored: Ref)
    requires CreateIdpResponse(idpBase, stored).Success?
    ensures CreateIdpResponse(idpBase, stored).value.ref.Keys <= PublicParameters(IdentityProvider)
    ensures FilterParams(IdentityProvider, CreateIdpResponse(idpBase, stored).value.ref, None)
         == CreateIdpResponse(idpBase, stored).value.ref
  {
  }
}
