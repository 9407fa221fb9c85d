/** The template factory of the framework: it creates a template of a
    validated class and fills in the default parameters every template
    gets, among them `baseUri` (the configured URI without trailing
    slashes), `basePath` (that URI without its `http://host` or
    `https://host` part) and `flashes` (always an array).

    Class existence and the `ITemplate` check are predicates given to the
    factory; the user, the helpers, the Latte filter and the theme are not
    part of this model. Objects are `nat` handles. */
module Templates {
  import opened Common

  /** The template class a new factory uses. */
  const DefaultTemplateClass: string := "Nette\\Templates\\FileTemplate"

  // ---------------------------------------------------------------- paths

  /** `rtrim($this->baseUri, '/')`. */
  function BaseUri(configured: string): (r: string)
  {
    RTrim(configured, '/')
  }

  /** The trimmed URI is the configured one less its trailing slashes. */
  lemma BaseUriSpec(configured: string)
    ensures |BaseUri(configured)| == 0 || BaseUri(configured)[|BaseUri(configured)| - 1] != '/'
    ensures exists tail :: AllChar(tail, '/') && configured == BaseUri(configured) + tail
  {
    RTrimSpec(configured, '/');
  }

  /** `s` starts with `prefix`. */
  predicate StartsWith(s: string, prefix: string)
  {
    |prefix| <= |s| && s[..|prefix|] == prefix
  }

  /** The length of the `https?://` the pattern anchors at the start, or 0. */
  function SchemeLength(uri: string): (k: nat)
    ensures k == 0 || k == 7 || k == 8
    ensures k == 7 <==> StartsWith(uri, "http://")
    ensures k == 8 <==> StartsWith(uri, "https://")
  {
    if StartsWith(uri, "http://") then
      assert uri[4] == ':';
      7
    else if StartsWith(uri, "https://") then 8
    else 0
  }

  /** The length of the run of non-`/` characters from `from`: `[^/]+`
      taken greedily. */
  function NonSlashRun(s: string, from: nat): (n: nat)
    requires from <= |s|
    ensures from + n <= |s|
    ensures forall i :: from <= i < from + n ==> s[i] != '/'
    ensures from + n < |s| ==> s[from + n] == '/'
    decreases |s| - from
  {
    if from == |s| || s[from] == '/' then 0 else 1 + NonSlashRun(s, from + 1)
  }

  /** `preg_replace('#https?://[^/]+#A', '', $uri)`. The pattern is anchored
      and its host part stops at the first `/`, so it can match at most
      once, at the start. */
  function BasePath(uri: string): (r: string)
  {
    var k := SchemeLength(uri);
    if k == 0 then uri
    else
      var h := NonSlashRun(uri, k);
      if h == 0 then uri else uri[k + h..]
  }

  /** `uri` is a scheme, a non-empty host and then `rest`, which is empty
      or starts with `/`. */
  ghost predicate HostThen(uri: string, rest: string)
  {
    exists scheme, host :: (scheme == "http://" || scheme == "https://") && host != "" && '/' !in host &&
      uri == scheme + host + rest && (rest == "" || rest[0] == '/')
  }

  /** A URI that does not start with `http://` or `https://` is its own
      base path. */
  lemma BasePathPlain(uri: string)
    requires !StartsWith(uri, "http://") && !StartsWith(uri, "https://")
    ensures BasePath(uri) == uri
  {
  }

  /** The scheme and the whole host are removed, and nothing more. */
  lemma BasePathStrips(scheme: string, host: string, rest: string)
    requires scheme == "http://" || scheme == "https://"
    requires host != "" && '/' !in host && (rest == "" || rest[0] == '/')
    ensures BasePath(scheme + host + rest) == rest
  {
    var uri := scheme + host + rest;
    assert uri[..|scheme|] == scheme;
    assert uri[..7] == scheme[..7];
    assert SchemeLength(uri) == |scheme|;
    forall i | |scheme| <= i < |scheme| + |host| ensures uri[i] != '/' {
      assert uri[i] == host[i - |scheme|];
    }
    if |scheme| + |host| < |uri| {
      assert uri[|scheme| + |host|] == rest[0];
    }
    assert NonSlashRun(uri, |scheme|) == |host| by {
      RunIs(uri, |scheme|, |host|);
    }
    assert uri[|scheme| + |host|..] == rest;
  }

  /** The greedy run is the whole span up to a `/` or the end. */
  lemma {:induction false} RunIs(s: string, from: nat, n: nat)
    requires from + n <= |s| && (forall i :: from <= i < from + n ==> s[i] != '/') && (from + n < |s| ==> s[from + n] == '/')
    ensures NonSlashRun(s, from) == n
    decreases n
  {
    if n > 0 {
      RunIs(s, from + 1, n - 1);
    }
  }

  /** Whatever the base path removes is a scheme and a host: the base path
      is the URI itself or what follows a leading `http(s)://host`. */
  lemma BasePathSound(uri: string)
    ensures BasePath(uri) == uri || HostThen(uri, BasePath(uri))
  {
    var k := SchemeLength(uri);
    if k != 0 {
      var h := NonSlashRun(uri, k);
      if h != 0 {
        var scheme, host, rest := uri[..k], uri[k..k + h], uri[k + h..];
        assert uri == scheme + host + rest;
        assert '/' !in host by {
          forall i | 0 <= i < |host| ensures host[i] != '/' {
            assert host[i] == uri[k + i];
          }
        }
        assert HostThen(uri, rest);
      }
    }
  }

  // -------------------------------------------------------------- flashes

  /** What a template holds under `flashes`: nothing, an array of flash
      messages, or some other value. */
  datatype FlashesValue = Unset | ArrayOf(items: seq<nat>) | NotArray

  /** `if (!isset($t->flashes) || !is_array($t->flashes)) $t->flashes = array();`:
      an array is kept, anything else becomes the empty array. */
  function Flashes(current: FlashesValue): (r: seq<nat>)
    ensures current.ArrayOf? ==> r == current.items
    ensures !current.ArrayOf? ==> r == []
  {
    if current.ArrayOf? then current.items else []
  }

  // ------------------------------------------------------------- factory

  /** The parameters `createTemplate` gives a template. */
  datatype Template = Template(templateClass: string, control: nat, presenter: Option<nat>,
                               baseUri: string, basePath: string, translator: Option<nat>, flashes: seq<nat>)

  class TemplateFactory {
    /** `class_exists`. */
    const classExists: string -> bool
    /** The class implements `Nette\Templates\ITemplate`. */
    const implementsTemplate: string -> bool
    var baseUri: string
    var templateClass: string
    var translator: Option<nat>

    /** `__construct($user, $baseUri)`; the class is the default one. */
    constructor (baseUri: string, classExists: string -> bool, implementsTemplate: string -> bool)
      ensures this.baseUri == baseUri && templateClass == DefaultTemplateClass && translator == None
      ensures this.classExists == classExists && this.implementsTemplate == implementsTemplate
    {
      this.baseUri := baseUri;
      this.classExists := classExists;
      this.implementsTemplate := implementsTemplate;
      templateClass := DefaultTemplateClass;
      translator := None;
    }

    /** `validateTemplateClass($class)`: the class itself when it exists
        and implements `ITemplate`; otherwise `InvalidArgumentException`. */
    function ValidateTemplateClass(cls: string): (r: Result<string>)
      ensures r.Ok? <==> classExists(cls) && implementsTemplate(cls)
      ensures r.Ok? ==> r.value == cls
      ensures r.Err? ==> r.error == InvalidArgument
    {
      if !classExists(cls) then Err(InvalidArgument)
      else if !implementsTemplate(cls) then Err(InvalidArgument)
      else Ok(cls)
    }

    /** `setTemplateClass($class)`: a rejected class leaves the stored one
        as it was. */
    method SetTemplateClass(cls: string) returns (r: Result<()>)
      modifies this`templateClass
      ensures r.Ok? <==> classExists(cls) && implementsTemplate(cls)
      ensures r.Ok? ==> templateClass == cls
      ensures r.Err? ==> r.error == InvalidArgument && templateClass == old(templateClass)
    {
      var v := ValidateTemplateClass(cls);
      if v.Err? {
        return Err(v.error);
      }
      templateClass := v.value;
      r := Ok(());
    }

    /** `getTemplateClass()`. */
    function GetTemplateClass(): string
      reads this
    {
      templateClass
    }

    /** `setTranslator($translator)`. */
    method SetTranslator(t: nat)
      modifies this`translator
      ensures translator == Some(t)
    {
      translator := Some(t);
    }

    /** `createTemplate($component, $templateClass)`. A truthy class
        argument is validated, else the stored class is used. The
        flash-session branch calls `getParamId`, which the factory does
        not have, so a presenter with a flash session makes the call fail;
        otherwise the new template has no flashes and gets the empty array. */
    method CreateTemplate(component: nat, presenter: Option<nat>, hasFlashSession: bool, classArg: Option<string>)
      returns (r: Result<Template>)
      ensures TruthyOpt(classArg) && !(classExists(classArg.value) && implementsTemplate(classArg.value)) ==>
        r == Err(InvalidArgument)
      ensures r.Ok? ==> presenter.None? || !hasFlashSession
      ensures (presenter.None? || !hasFlashSession) && (TruthyOpt(classArg) ==> classExists(classArg.value) && implementsTemplate(classArg.value)) ==>
        r.Ok?
      ensures r.Ok? ==>
        r.value.templateClass == (if TruthyOpt(classArg) then classArg.value else templateClass) &&
        r.value.control == component && r.value.presenter == presenter &&
        r.value.baseUri == BaseUri(baseUri) && r.value.basePath == BasePath(BaseUri(baseUri)) &&
        r.value.translator == translator && r.value.flashes == []
    {
      var cls := templateClass;
      if TruthyOpt(classArg) {
        var v := ValidateTemplateClass(classArg.value);
        if v.Err? {
          return Err(v.error);
        }
        cls := v.value;
      }
      var uri := BaseUri(baseUri);
      var path := BasePath(uri);
      if presenter.Some? && hasFlashSession {
        return Err(UndefinedMethod);
      }
      r := Ok(Template(cls, component, presenter, uri, path, translator, Flashes(Unset)));
    }
  }

  /** A site root configured with a trailing slash has an empty base path. */
  lemma SiteRootHasEmptyBasePath(host: string)
    requires host != "" && '/' !in host
    ensures BaseUri("https://" + host + "/") == "https://" + host
    ensures BasePath(BaseUri("https://" + host + "/")) == ""
  {
    var u := "https://" + host + "/";
    assert TrailingCount(u, '/') == 1 by {
      assert u[|u| - 1] == '/';
      assert u[|u| - 2] == host[|host| - 1];
    }
    assert u[..|u| - 1] == "https://" + host;
    BasePathStrips("https://", host, "");
    assert "https://" + host + "" == "https://" + host;
  }
}
