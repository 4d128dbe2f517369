/** JSON-Home relation names of the identity API: fixed-prefix URLs for
    resources and parameters, core or from an extension. */
module JsonHome {
  import opened Wrappers

  /** The prefix every relation of version 3 of the identity API shares. */
  const V3Base: string := "http://docs.openstack.org/api/openstack-identity/3/"

  /** `build_v3_resource_relation`. */
  function ResourceRelation(resourceName: string): string {
    V3Base + "rel/" + resourceName
  }

  /** `build_v3_extension_resource_relation`. */
  function ExtensionResourceRelation(extensionName: string, extensionVersion: string, resourceName: string): string {
    V3Base + "ext/" + extensionName + "/" + extensionVersion + "/rel/" + resourceName
  }

  /** `build_v3_parameter_relation`. */
  function ParameterRelation(parameterName: string): string {
    V3Base + "param/" + parameterName
  }

  /** `build_v3_extension_parameter_relation`. */
  function ExtensionParameterRelation(extensionName: string, extensionVersion: string, parameterName: string): string {
    V3Base + "ext/" + extensionName + "/" + extensionVersion + "/param/" + parameterName
  }

  /** The `Parameters` constants. */
  const DomainId: string := ParameterRelation("domain_id")
  const EndpointId: string := ParameterRelation("endpoint_id")
  const GroupId: string := ParameterRelation("group_id")
  const ProjectId: string := ParameterRelation("project_id")
  const RoleId: string := ParameterRelation("role_id")
  const UserId: string := ParameterRelation("user_id")

  // ---------------------------------------------------------------------
  // Reading a relation back

  /** What a relation names. */
  datatype Relation =
    | Resource(name: string)
    | ExtensionResource(extension: string, version: string, name: string)
    | Parameter(name: string)
    | ExtensionParameter(extension: string, version: string, name: string)

  /** The relation URL of `rel`, by the four builders. */
  function Build(rel: Relation): string {
    match rel
    case Resource(n) => ResourceRelation(n)
    case ExtensionResource(e, v, n) => ExtensionResourceRelation(e, v, n)
    case Parameter(n) => ParameterRelation(n)
    case ExtensionParameter(e, v, n) => ExtensionParameterRelation(e, v, n)
  }

  /** What follows the version-3 prefix in the URL of `rel`. */
  function BuildTail(rel: Relation): string {
    match rel
    case Resource(n) => "rel/" + n
    case ExtensionResource(e, v, n) => ExtTail(e, v, "rel/", n)
    case Parameter(n) => "param/" + n
    case ExtensionParameter(e, v, n) => ExtTail(e, v, "param/", n)
  }

  function ExtTail(e: string, v: string, kind: string, n: string): string {
    "ext/" + (e + "/" + (v + "/" + (kind + n)))
  }

  lemma ExtTailAssoc(base: string, e: string, v: string, kind: string, n: string)
    ensures base + "ext/" + e + "/" + v + ("/" + kind) + n == base + ExtTail(e, v, kind, n)
  {
  }

  lemma BuildIsBaseAndTail(rel: Relation)
    ensures Build(rel) == V3Base + BuildTail(rel)
  {
    match rel
    case Resource(n) => Assoc(V3Base, "rel/", n);
    case ExtensionResource(e, v, n) =>
      assert "/rel/" == "/" + "rel/";
      ExtTailAssoc(V3Base, e, v, "rel/", n);
    case Parameter(n) => Assoc(V3Base, "param/", n);
    case ExtensionParameter(e, v, n) =>
      assert "/param/" == "/" + "param/";
      ExtTailAssoc(V3Base, e, v, "param/", n);
  }

  /** `s` with the prefix `p` removed, when `s` starts with `p`. */
  function DropPrefix(s: string, p: string): (r: Option<string>)
    ensures r.Some? ==> s == p + r.value
  {
    if |p| <= |s| && s[..|p|] == p then
      assert s == s[..|p|] + s[|p|..];
      Some(s[|p|..])
    else None
  }

  lemma DropPrefixOfConcat(p: string, x: string)
    ensures DropPrefix(p + x, p) == Some(x)
  {
    assert (p + x)[..|p|] == p;
    assert (p + x)[|p|..] == x;
  }

  lemma DropPrefixMismatch(s: string, p: string)
    requires 0 < |p| && 0 < |s| && s[0] != p[0]
    ensures DropPrefix(s, p) == None
  {
  }

  lemma Assoc(a: string, b: string, c: string)
    ensures a + b + c == a + (b + c)
  {
  }

  /** Splits at the first '/'. */
  function SplitSlash(s: string): (r: Option<(string, string)>)
    ensures r.None? <==> '/' !in s
    ensures r.Some? ==> s == r.value.0 + "/" + r.value.1 && '/' !in r.value.0
  {
    if |s| == 0 then None
    else if s[0] == '/' then Some(([], s[1..]))
    else
      match SplitSlash(s[1..])
      case None => None
      case Some((a, b)) => Some(([s[0]] + a, b))
  }

  /** The relation named by what follows the version-3 prefix. */
  function ParseTail(rest: string): (r: Option<Relation>)
    ensures r.Some? ==> BuildTail(r.value) == rest
  {
    match DropPrefix(rest, "rel/")
    case Some(n) => Some(Resource(n))
    case None =>
      match DropPrefix(rest, "param/")
      case Some(n) => Some(Parameter(n))
      case None =>
        match DropPrefix(rest, "ext/")
        case None => None
        case Some(ext) =>
          match SplitSlash(ext)
          case None => None
          case Some((e, afterExt)) =>
            match SplitSlash(afterExt)
            case None => None
            case Some((v, tail)) =>
              match DropPrefix(tail, "rel/")
              case Some(n) => Some(ExtensionResource(e, v, n))
              case None =>
                match DropPrefix(tail, "param/")
                case Some(n) => Some(ExtensionParameter(e, v, n))
                case None => None
  }

  /** Reads a relation URL back into what it names; `None` for a string no
      builder produces. Extension and version are read up to the next '/'. */
  function Parse(s: string): (r: Option<Relation>)
    ensures r.Some? ==> Build(r.value) == s
  {
    match DropPrefix(s, V3Base)
    case None => None
    case Some(rest) =>
      var r := ParseTail(rest);
      assert r.Some? ==> Build(r.value) == s by {
        if r.Some? {
          BuildIsBaseAndTail(r.value);
        }
      }
      r
  }

  lemma {:induction false} SplitSlashOfJoin(a: string, b: string)
    requires '/' !in a
    ensures SplitSlash(a + "/" + b) == Some((a, b))
  {
    if |a| == 0 {
      assert a + "/" + b == ['/'] + b;
      assert (['/'] + b)[1..] == b;
    } else {
      assert a[1..] + "/" + b == (a + "/" + b)[1..];
      assert '/' !in a[1..] by {
        assert forall k :: 0 <= k < |a[1..]| ==> a[1..][k] == a[k + 1];
      }
      SplitSlashOfJoin(a[1..], b);
      assert [a[0]] + a[1..] == a;
    }
  }

  /** No '/' inside the extension name or version of a relation. */
  predicate WellFormed(rel: Relation) {
    match rel
    case ExtensionResource(e, v, _) => '/' !in e && '/' !in v
    case ExtensionParameter(e, v, _) => '/' !in e && '/' !in v
    case _ => true
  }

  /** Every relation is read back as itself, provided its extension name
      and version hold no '/'. */
  lemma ParseOfBuild(rel: Relation)
    requires WellFormed(rel)
    ensures Parse(Build(rel)) == Some(rel)
  {
    BuildIsBaseAndTail(rel);
    DropPrefixOfConcat(V3Base, BuildTail(rel));
    ParseTailOfBuildTail(rel);
  }

  lemma ParseTailOfBuildTail(rel: Relation)
    requires WellFormed(rel)
    ensures ParseTail(BuildTail(rel)) == Some(rel)
  {
    match rel
    case Resource(n) =>
      DropPrefixOfConcat("rel/", n);
    case Parameter(n) =>
      DropPrefixMismatch("param/" + n, "rel/");
      DropPrefixOfConcat("param/", n);
    case ExtensionResource(e, v, n) =>
      ParseOfExtension(e, v, "rel/", n);
    case ExtensionParameter(e, v, n) =>
      ParseOfExtension(e, v, "param/", n);
  }

  lemma ParseOfExtension(e: string, v: string, kind: string, n: string)
    requires '/' !in e && '/' !in v
    requires kind == "rel/" || kind == "param/"
    ensures ParseTail(ExtTail(e, v, kind, n))
         == Some(if kind == "rel/" then ExtensionResource(e, v, n) else ExtensionParameter(e, v, n))
  {
    var afterVersion := kind + n;
    var afterExt := v + "/" + afterVersion;
    var ext := e + "/" + afterExt;
    var rest := "ext/" + ext;
    DropPrefixMismatch(rest, "rel/");
    DropPrefixMismatch(rest, "param/");
    DropPrefixOfConcat("ext/", ext);
    SplitSlashOfJoin(e, afterExt);
    SplitSlashOfJoin(v, afterVersion);
    DropPrefixOfConcat(kind, n);
    if kind == "param/" {
      DropPrefixMismatch(afterVersion, "rel/");
    }
  }

  /** Each of the four builders gives a URL that reads back as the
      relation it was built for. */
  lemma BuildersReadBack(e: string, v: string, n: string)
    ensures Parse(ResourceRelation(n)) == Some(Resource(n))
    ensures Parse(ParameterRelation(n)) == Some(Parameter(n))
    ensures '/' !in e && '/' !in v ==> Parse(ExtensionResourceRelation(e, v, n)) == Some(ExtensionResource(e, v, n))
    ensures '/' !in e && '/' !in v ==> Parse(ExtensionParameterRelation(e, v, n)) == Some(ExtensionParameter(e, v, n))
  {
    ParseOfBuild(Resource(n));
    ParseOfBuild(Parameter(n));
    if '/' !in e && '/' !in v {
      ParseOfBuild(ExtensionResource(e, v, n));
      ParseOfBuild(ExtensionParameter(e, v, n));
    }
  }

  /** Distinct well-formed relations have distinct URLs. */
  lemma BuildInjective(a: Relation, b: Relation)
    requires WellFormed(a) && WellFormed(b) && Build(a) == Build(b)
    ensures a == b
  {
    ParseOfBuild(a);
    ParseOfBuild(b);
  }

  /** A resource relation is never a parameter relation. */
  lemma ResourceIsNotParameter(resourceName: string, parameterName: string)
    ensures ResourceRelation(resourceName) != ParameterRelation(parameterName)
  {
    if ResourceRelation(resourceName) == ParameterRelation(parameterName) {
      BuildInjective(Resource(resourceName), Parameter(parameterName));
    }
  }

  /** For fixed extension and version, the extension builders are
      injective in the final name, whatever characters the names hold. */
  lemma ExtensionBuildersInjectiveInName(e: string, v: string, x: string, y: string)
    ensures ExtensionResourceRelation(e, v, x) == ExtensionResourceRelation(e, v, y) ==> x == y
    ensures ExtensionParameterRelation(e, v, x) == ExtensionParameterRelation(e, v, y) ==> x == y
  {
    var p := V3Base + "ext/" + e + "/" + v + "/rel/";
    var q := V3Base + "ext/" + e + "/" + v + "/param/";
    assert ExtensionResourceRelation(e, v, x) == p + x && ExtensionResourceRelation(e, v, y) == p + y;
    assert (p + x)[|p|..] == x && (p + y)[|p|..] == y;
    assert ExtensionParameterRelation(e, v, x) == q + x && ExtensionParameterRelation(e, v, y) == q + y;
    assert (q + x)[|q|..] == x && (q + y)[|q|..] == y;
  }

  /** With a '/' in the extension name, two different relations share one
      URL: the split between extension and version is lost. */
  lemma SlashInExtensionCollides()
    ensures ExtensionResource("a/b", "c", "r") != ExtensionResource("a", "b/c", "r")
    ensures Build(ExtensionResource("a/b", "c", "r")) == Build(ExtensionResource("a", "b/c", "r"))
  {
    Assoc3Slash("a", "b", "c");
  }

  lemma Assoc3Slash(a: string, b: string, c: string)
    ensures (a + "/" + b) + "/" + c == a + "/" + (b + "/" + c)
  {
  }

  /** Each `Parameters` constant reads back as the parameter of its own
      lower-case name. */
  lemma ParametersAreParameterRelations()
    ensures Parse(DomainId) == Some(Parameter("domain_id"))
    ensures Parse(EndpointId) == Some(Parameter("endpoint_id"))
    ensures Parse(GroupId) == Some(Parameter("group_id"))
    ensures Parse(ProjectId) == Some(Parameter("project_id"))
    ensures Parse(RoleId) == Some(Parameter("role_id"))
    ensures Parse(UserId) == Some(Parameter("user_id"))
  {
    ParseOfBuild(Parameter("domain_id"));
    ParseOfBuild(Parameter("endpoint_id"));
    ParseOfBuild(Parameter("group_id"));
    ParseOfBuild(Parameter("project_id"));
    ParseOfBuild(Parameter("role_id"));
    ParseOfBuild(Parameter("user_id"));
  }

  /** The spelled-out URL of one constant. */
  lemma EndpointIdSpelledOut()
    ensures EndpointId == "http://docs.openstack.org/api/openstack-identity/3/param/endpoint_id"
  {
  }
}
