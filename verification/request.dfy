/** `Request` of app/src/request.rs: classify a resource name by its
    suffix, build its URL, and the encoding guards that run before any
    network call. */
module Request {
  import opened Wrappers

  /** The five kinds of resource; each carries the whole original name. */
  datatype Request =
    | Model(name: string)
    | Image(name: string)
    | Code(name: string)
    | Icon(name: string)
    | API(name: string)

  /** `str::split(".")`: the pieces between the dots, empty ones kept. */
  function Split(s: string): (parts: seq<string>)
    ensures |parts| >= 1
    ensures forall i :: 0 <= i < |parts| ==> '.' !in parts[i]
  {
    if s == [] then [""]
    else
      var rest := Split(s[1..]);
      if s[0] == '.' then [""] + rest
      else [[s[0]] + rest[0]] + rest[1..]
  }

  /** The pieces glued back together with dots between them. */
  function Join(parts: seq<string>): string
    requires |parts| >= 1
  {
    if |parts| == 1 then parts[0] else parts[0] + "." + Join(parts[1..])
  }

  /** Splitting then joining gives back the name... */
  lemma {:induction false} JoinSplit(s: string)
    ensures Join(Split(s)) == s
  {
    if s != [] {
      JoinSplit(s[1..]);
      var rest := Split(s[1..]);
      if s[0] != '.' {
        var parts := Split(s);
        if |rest| == 1 {
          assert parts == [[s[0]] + rest[0]];
        } else {
          assert parts[1..] == rest[1..];
          assert Join(parts) == [s[0]] + rest[0] + "." + Join(rest[1..]);
        }
      }
    }
  }

  /** ... and joining dot-free pieces then splitting gives back the pieces. */
  lemma {:induction false} SplitJoin(parts: seq<string>)
    requires |parts| >= 1 && forall i :: 0 <= i < |parts| ==> '.' !in parts[i]
    ensures Split(Join(parts)) == parts
    decreases |parts|, |parts[0]|
  {
    var p := parts[0];
    if p == [] {
      if |parts| > 1 {
        SplitJoin(parts[1..]);
        assert Join(parts) == "." + Join(parts[1..]);
        assert Join(parts)[1..] == Join(parts[1..]);
      }
    } else {
      var shorter := [p[1..]] + parts[1..];
      assert p[0] in p;
      assert '.' !in p[1..] by {
        forall k | 0 <= k < |p[1..]|
          ensures p[1..][k] != '.'
        {
          assert p[1..][k] == p[k + 1] && p[k + 1] in p;
        }
      }
      assert shorter[1..] == parts[1..];
      assert forall i :: 1 <= i < |shorter| ==> shorter[i] == parts[i];
      SplitJoin(shorter);
      assert Join(parts) == [p[0]] + Join(shorter) by {
        if |parts| > 1 {
          assert Join(shorter) == p[1..] + "." + Join(parts[1..]);
          assert Join(parts) == p + "." + Join(parts[1..]);
          assert p == [p[0]] + p[1..];
        } else {
          assert p == [p[0]] + p[1..];
        }
      }
      var j := Join(parts);
      assert j[0] == p[0] && j[1..] == Join(shorter);
      assert [p[0]] + shorter[0] == p;
    }
  }

  /** A name splits into at least two pieces exactly when it has a dot, so
      `suffix[1]` is in bounds exactly then. */
  lemma {:induction false} SplitHasSecond(s: string)
    ensures |Split(s)| >= 2 <==> '.' in s
  {
    if s != [] {
      SplitHasSecond(s[1..]);
      assert '.' in s <==> s[0] == '.' || '.' in s[1..];
    }
  }

  /** The piece `from_name` matches on: the one between the first and the
      second dot (or the end of the name). */
  function Suffix(name: string): (suffix: string)
    requires '.' in name
    ensures '.' !in suffix
  {
    SplitHasSecond(name);
    Split(name)[1]
  }

  /** The suffix is the second piece, not the last extension: when `name` is
      `first.suffix` followed by nothing or by a dot and anything else, the
      suffix is that second piece. */
  lemma SuffixIsSecondPiece(first: string, suffix: string, rest: string)
    requires '.' !in first && '.' !in suffix
    requires rest == [] || rest[0] == '.'
    ensures '.' in first + "." + suffix + rest
    ensures Suffix(first + "." + suffix + rest) == suffix
  {
    var name := first + "." + suffix + rest;
    assert name[|first|] == '.';
    if rest == [] {
      SplitJoin([first, suffix]);
      assert Join([first, suffix]) == name;
    } else {
      var more := Split(rest[1..]);
      JoinSplit(rest[1..]);
      var parts := [first, suffix] + more;
      assert parts[1..] == [suffix] + more && parts[1..][1..] == more;
      assert Join(parts) == name;
      SplitJoin(parts);
    }
  }

  /** `Request::from_name`: classify by the suffix; anything unknown is an
      API call.  The source indexes `suffix[1]`, which panics on a name
      without a dot, so a dot is required. */
  function FromName(name: string): (r: Request)
    requires '.' in name
    ensures r.name == name
    ensures r.Model? <==> Suffix(name) == "obj"
    ensures r.Image? <==> Suffix(name) in {"jpg", "png"}
    ensures r.Code? <==> Suffix(name) in {"wgsl", "glsl"}
    ensures r.Icon? <==> Suffix(name) == "svg"
  {
    var suffix := Suffix(name);
    if suffix == "obj" then Model(name)
    else if suffix == "jpg" || suffix == "png" then Image(name)
    else if suffix == "wgsl" || suffix == "glsl" then Code(name)
    else if suffix == "svg" then Icon(name)
    else API(name)
  }

  /** A name with two or more dots is classified by its second piece alone,
      whatever follows: "a.b.obj" is an API call, not a model. */
  lemma ClassifiesBySecondPiece(first: string, second: string, ext: string)
    requires '.' !in first && '.' !in second
    ensures var name := first + "." + second + "." + ext;
            && '.' in name
            && (FromName(name).API? <==> second !in {"obj", "jpg", "png", "wgsl", "glsl", "svg"})
            && (FromName(name).Model? <==> second == "obj")
  {
    SuffixIsSecondPiece(first, second, "." + ext);
    assert first + "." + second + ("." + ext) == first + "." + second + "." + ext;
  }

  /** The directory each kind is served from. */
  function Prefix(r: Request): string
  {
    match r
    case Model(_) => "static/models/"
    case Image(_) => "static/images/"
    case Icon(_) => "static/icons/"
    case Code(_) => "static/code/"
    case API(_) => "api/"
  }

  /** `Request::url`: the kind's directory, the name, and a closing slash. */
  function Url(r: Request): (u: string)
    ensures |u| == |Prefix(r)| + |r.name| + 1
    ensures u[..|Prefix(r)|] == Prefix(r) && u[|Prefix(r)|..|u| - 1] == r.name && u[|u| - 1] == '/'
  {
    Prefix(r) + r.name + "/"
  }

  /** Recover the request a URL was built from, if it is one. */
  function ParseUrl(u: string): (r: Option<Request>)
    ensures r.Some? ==> Url(r.value) == u
  {
    if |u| == 0 || u[|u| - 1] != '/' then None
    else if |u| > 14 && u[..14] == "static/models/" then Rejoin(u, 14); Some(Model(u[14..|u| - 1]))
    else if |u| > 14 && u[..14] == "static/images/" then Rejoin(u, 14); Some(Image(u[14..|u| - 1]))
    else if |u| > 13 && u[..13] == "static/icons/" then Rejoin(u, 13); Some(Icon(u[13..|u| - 1]))
    else if |u| > 12 && u[..12] == "static/code/" then Rejoin(u, 12); Some(Code(u[12..|u| - 1]))
    else if |u| > 4 && u[..4] == "api/" then Rejoin(u, 4); Some(API(u[4..|u| - 1]))
    else None
  }

  /** A string ending in a slash is its first `k` characters, the middle,
      and the slash. */
  lemma Rejoin(u: string, k: nat)
    requires k < |u| && u[|u| - 1] == '/'
    ensures u[..k] + u[k..|u| - 1] + "/" == u
  {
    assert u == u[..k] + u[k..|u| - 1] + u[|u| - 1..];
  }

  /** A string that starts with `q` does not start with a `p` that differs
      from `q` at some position both share. */
  lemma PrefixesDiffer(u: string, p: string, q: string, i: nat)
    requires |u| >= |q| && u[..|q|] == q
    requires i < |p| && i < |q| && p[i] != q[i]
    ensures !(|u| > |p| && u[..|p|] == p)
  {
    assert u[..|q|][i] == u[i];
  }

  /** Every URL names its request: no two requests share a URL. */
  lemma UrlRoundTrip(r: Request)
    ensures ParseUrl(Url(r)) == Some(r)
  {
    var u := Url(r);
    var q := Prefix(r);
    var models, images, icons, code := "static/models/", "static/images/", "static/icons/", "static/code/";
    match r
    case Model(_) =>
    case Image(_) =>
      PrefixesDiffer(u, models, q, 7);
    case Icon(_) =>
      PrefixesDiffer(u, models, q, 7);
      PrefixesDiffer(u, images, q, 8);
    case Code(_) =>
      PrefixesDiffer(u, models, q, 7);
      PrefixesDiffer(u, images, q, 7);
      PrefixesDiffer(u, icons, q, 7);
    case API(_) =>
      PrefixesDiffer(u, models, q, 0);
      PrefixesDiffer(u, images, q, 0);
      PrefixesDiffer(u, icons, q, 0);
      PrefixesDiffer(u, code, q, 0);
  }

  /** `RequestEncodingDismatchError`: the URL that was refused and the
      encoding that was asked for. */
  datatype Guard = Fetch(url: string) | Mismatch(url: string, tryToEncodeAs: string)

  /** The check at the top of `request_utf8`: text for every kind but
      images. */
  function Utf8Guard(r: Request): (g: Guard)
    ensures g.url == Url(r)
    ensures g.Mismatch? ==> g.tryToEncodeAs == "utf8"
    ensures g.Fetch? <==> !r.Image?
  {
    match r
    case Image(_) => Mismatch(Url(r), "utf8")
    case _ => Fetch(Url(r))
  }

  /** The check at the top of `request_bytes`: bytes for images only. */
  function BytesGuard(r: Request): (g: Guard)
    ensures g.url == Url(r)
    ensures g.Mismatch? ==> g.tryToEncodeAs == "bytes"
    ensures g.Fetch? <==> r.Image?
  {
    match r
    case Image(_) => Fetch(Url(r))
    case _ => Mismatch(Url(r), "bytes")
  }

  /** Every request can be fetched in exactly one encoding. */
  lemma ExactlyOneEncoding(r: Request)
    ensures Utf8Guard(r).Fetch? != BytesGuard(r).Fetch?
  {
  }
}
