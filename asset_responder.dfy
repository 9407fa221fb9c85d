/** The responder that serves a published asset: it joins the route's
    prefix and asset name into the storage path and hands it, with the
    storage it was built with, to an asset response. The storage is an
    object handle. */
module Responder {
  import opened Common

  /** The response `__invoke` creates. */
  datatype AssetResponse = AssetResponse(storage: nat, path: string)

  /** `trim($prefix, '/') . '/' . trim($name, '/')`. */
  function AssetPath(prefix: string, name: string): string
  {
    Trim(prefix, '/') + "/" + Trim(name, '/')
  }

  class AssetResponder {
    /** The only state: the storage given to the constructor. */
    const storage: nat

    constructor (storage: nat)
      ensures this.storage == storage
    {
      this.storage := storage;
    }

    /** `__invoke($prefix, $name)`. */
    function Invoke(prefix: string, name: string): (r: AssetResponse)
      ensures r.storage == storage
      ensures r.path == AssetPath(prefix, name)
    {
      AssetResponse(storage, Trim(prefix, '/') + "/" + Trim(name, '/'))
    }
  }

  /** The path is the prefix and the name, each stripped of its leading and
      trailing slashes only, with exactly one `/` between them. */
  lemma AssetPathSpec(prefix: string, name: string)
    ensures var p, n, r := Trim(prefix, '/'), Trim(name, '/'), AssetPath(prefix, name);
      |r| == |p| + 1 + |n| && r[..|p|] == p && r[|p|] == '/' && r[|p| + 1..] == n &&
      (p == "" || (p[0] != '/' && p[|p| - 1] != '/')) && (n == "" || (n[0] != '/' && n[|n| - 1] != '/')) &&
      (exists head, tail :: AllChar(head, '/') && AllChar(tail, '/') && prefix == head + p + tail) &&
      (exists head, tail :: AllChar(head, '/') && AllChar(tail, '/') && name == head + n + tail)
  {
    TrimSpec(prefix, '/');
    TrimSpec(name, '/');
    var p, n := Trim(prefix, '/'), Trim(name, '/');
    var r := AssetPath(prefix, name);
    assert r[..|p|] == p;
    assert r[|p| + 1..] == n;
  }

  /** Parts already free of outer slashes are joined as they are, inner
      slashes included. */
  lemma CleanPartsJoined(prefix: string, name: string)
    requires prefix == "" || (prefix[0] != '/' && prefix[|prefix| - 1] != '/')
    requires name == "" || (name[0] != '/' && name[|name| - 1] != '/')
    ensures AssetPath(prefix, name) == prefix + "/" + name
  {
    TrimNoop(prefix, '/');
    TrimNoop(name, '/');
  }

  /** `("/css/", "/a.css")` gives `css/a.css`. */
  lemma CssExample()
    ensures AssetPath("/css/", "/a.css") == "css/a.css"
  {
    var p, n := "/css/", "/a.css";
    assert LeadingCount(p, '/') == 1 by {
      assert p[0] == '/' && p[1] != '/';
    }
    assert LTrim(p, '/') == "css/";
    assert TrailingCount("css/", '/') == 1 by {
      assert "css/"[3] == '/' && "css/"[2] != '/';
    }
    assert LeadingCount(n, '/') == 1 by {
      assert n[0] == '/' && n[1] != '/';
    }
    assert LTrim(n, '/') == "a.css";
    assert TrailingCount("a.css", '/') == 0 by {
      assert "a.css"[4] != '/';
    }
  }
}
