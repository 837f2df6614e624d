/** config.BrowserConfig on the heap: a struct that is copied on assignment but whose overrides,
    cookies and headers are references, so that copies share them. DeepClone and the options
    are the methods of the source, proved against the values of RenderingOptions. */
module BrowserConfigs {
  import opened RequestConfigs
  import opened RenderingOptions

  /** network.SetCookieParams, always held by pointer and never changed after creation. */
  class Cookie {
    const params: CookieParams

    constructor (params: CookieParams)
      ensures this.params == params
    {
      this.params := params;
    }
  }

  /** A Go map of headers: a reference that copies of the struct share. */
  class Headers {
    var entries: map<string, string>

    constructor (entries: map<string, string>)
      ensures this.entries == entries
    {
      this.entries := entries;
    }
  }

  /** A Go slice of cookies: the first len elements of a backing array, whose length is the
      capacity. */
  datatype CookieSlice = NilSlice | Slice(backing: array<Cookie>, len: nat)

  ghost predicate ValidSlice(s: CookieSlice) {
    s.Slice? ==> s.len <= s.backing.Length
  }

  /** append would write into the backing array. */
  predicate HasRoom(s: CookieSlice) {
    s.Slice? && s.len < s.backing.Length
  }

  ghost function BackingOf(s: CookieSlice): set<object> {
    if s.NilSlice? then {} else {s.backing}
  }

  /** The array that append would write into. */
  ghost function SpareOf(s: CookieSlice): set<object> {
    if HasRoom(s) then {s.backing} else {}
  }

  function Params(cookies: seq<Cookie>): (r: seq<CookieParams>)
    ensures |r| == |cookies| && forall i | 0 <= i < |r| :: r[i] == cookies[i].params
  {
    seq(|cookies|, i requires 0 <= i < |cookies| => cookies[i].params)
  }

  ghost function Elements(s: CookieSlice): seq<CookieParams>
    requires ValidSlice(s)
    reads BackingOf(s)
  {
    if s.NilSlice? then [] else Params(s.backing[..s.len])
  }

  /** append writes behind the last element when the backing array has room, and otherwise
      moves to a larger array. */
  method Append(s: CookieSlice, c: Cookie) returns (r: CookieSlice)
    requires ValidSlice(s)
    modifies SpareOf(s)
    ensures ValidSlice(r) && Elements(r) == old(Elements(s)) + [c.params]
    ensures r.Slice? && (if HasRoom(s) then r == Slice(s.backing, s.len + 1) else fresh(r.backing))
    ensures HasRoom(s) ==> s.backing[..] == old(s.backing[..])[s.len := c]
  {
    if HasRoom(s) {
      s.backing[s.len] := c;
      r := Slice(s.backing, s.len + 1);
    } else {
      var n := if s.NilSlice? then 0 else s.len;
      var capacity: nat :| capacity > n;
      var bigger := new Cookie[capacity](_ => c);
      var i := 0;
      while i < n
        invariant i <= n && (s.NilSlice? ==> n == 0)
        modifies bigger
        invariant forall k | 0 <= k < i :: bigger[k] == s.backing[k]
        invariant forall k | i <= k < capacity :: bigger[k] == c
      {
        bigger[i] := s.backing[i];
        i := i + 1;
      }
      r := Slice(bigger, n + 1);
    }
  }

  /** The cookie loop of DeepClone: every element is replaced, in the array itself, by a new
      cookie with the same content. */
  method RefreshCookies(backing: array<Cookie>, len: nat)
    requires len <= backing.Length
    modifies backing
    ensures Params(backing[..len]) == old(Params(backing[..len]))
    ensures forall k | 0 <= k < len :: fresh(backing[k])
    ensures forall k | len <= k < backing.Length :: backing[k] == old(backing[k])
  {
    var i := 0;
    while i < len
      invariant i <= len
      invariant forall k | 0 <= k < i :: fresh(backing[k]) && backing[k].params == old(backing[k]).params
      invariant forall k | i <= k < backing.Length :: backing[k] == old(backing[k])
    {
      var cloned := new Cookie(backing[i].params);
      backing[i] := cloned;
      i := i + 1;
    }
  }

  class BrowserConfig {
    var timeZone: string
    var cookies: CookieSlice
    var headers: Headers?
    var defaultRequestConfig: RequestConfig
    var requestConfigOverrides: array<Override>

    ghost predicate Valid()
      reads this
    {
      ValidSlice(cookies)
    }

    /** The heap the configuration refers to. */
    ghost function Shared(): set<object>
      reads this
    {
      {requestConfigOverrides} + (if headers == null then {} else {headers as object}) + BackingOf(cookies)
    }

    /** The value of the configuration, with everything it refers to. */
    ghost function Value(): Settings
      requires Valid()
      reads this, Shared()
    {
      Settings(timeZone, Elements(cookies), if headers == null then None else Some(headers.entries),
               defaultRequestConfig, requestConfigOverrides[..])
    }

    /** Go's zero value. */
    constructor Empty()
      ensures Valid() && fresh(Shared())
    {
      timeZone := "";
      cookies := NilSlice;
      headers := null;
      defaultRequestConfig := ZERO;
      requestConfigOverrides := new Override[0];
    }

    /** Go's struct assignment: the copy shares everything behind a reference. */
    constructor CopyOf(c: BrowserConfig)
      requires c.Valid()
      ensures Valid() && Value() == c.Value()
      ensures timeZone == c.timeZone && cookies == c.cookies && headers == c.headers
      ensures defaultRequestConfig == c.defaultRequestConfig
      ensures requestConfigOverrides == c.requestConfigOverrides
    {
      timeZone := c.timeZone;
      cookies := c.cookies;
      headers := c.headers;
      defaultRequestConfig := c.defaultRequestConfig;
      requestConfigOverrides := c.requestConfigOverrides;
    }

    /** The clone owns its headers and overrides. Its cookies are not cloned: the loop writes
        the copies into the array that both configurations share. */
    method DeepClone() returns (cpy: BrowserConfig)
      requires Valid()
      modifies BackingOf(cookies)
      ensures fresh(cpy) && cpy.Valid() && cpy.Value() == old(Value())
      ensures Valid() && Value() == old(Value())
      ensures fresh(cpy.requestConfigOverrides) && (cpy.headers != null ==> fresh(cpy.headers))
      ensures cpy.cookies == cookies
    {
      cpy := new BrowserConfig.CopyOf(this);
      if cookies.Slice? {
        RefreshCookies(cookies.backing, cookies.len);
      }
      if headers != null {
        cpy.headers := new Headers(headers.entries);
      }
      cpy.requestConfigOverrides := new Override[requestConfigOverrides.Length](
        i requires 0 <= i < requestConfigOverrides.Length reads this, requestConfigOverrides => requestConfigOverrides[i]);
      assert cpy.requestConfigOverrides[..] == requestConfigOverrides[..];
    }

    /** Apply a function to the default and to every override, in place. */
    method ApplyAll(fn: RequestConfig -> RequestConfig)
      modifies this`defaultRequestConfig, requestConfigOverrides
      ensures defaultRequestConfig == fn(old(defaultRequestConfig))
      ensures forall i | 0 <= i < requestConfigOverrides.Length ::
                requestConfigOverrides[i]
                == old(requestConfigOverrides[i]).(config := fn(old(requestConfigOverrides[i]).config))
    {
      defaultRequestConfig := fn(defaultRequestConfig);
      for i := 0 to requestConfigOverrides.Length
        modifies requestConfigOverrides
        invariant forall k | 0 <= k < i ::
            requestConfigOverrides[k]
            == old(requestConfigOverrides[k]).(config := fn(old(requestConfigOverrides[k]).config))
        invariant forall k | i <= k < requestConfigOverrides.Length ::
            requestConfigOverrides[k] == old(requestConfigOverrides[k])
      {
        requestConfigOverrides[i] := requestConfigOverrides[i].(config := fn(requestConfigOverrides[i].config));
      }
    }

    /** The configuration of the first override that matches the URL, or the default. */
    method LookupRequestConfig(url: string, matches: (string, string) -> bool) returns (rc: RequestConfig)
      requires Valid()
      ensures (forall i | 0 <= i < requestConfigOverrides.Length :: !matches(requestConfigOverrides[i].pattern, url)) ==>
                rc == defaultRequestConfig
      ensures forall i | 0 <= i < requestConfigOverrides.Length ::
                && matches(requestConfigOverrides[i].pattern, url)
                && (forall j | 0 <= j < i :: !matches(requestConfigOverrides[j].pattern, url))
                ==> rc == requestConfigOverrides[i].config
      ensures rc == Lookup(Value(), url, matches)
    {
      ghost var all := requestConfigOverrides[..];
      for i := 0 to requestConfigOverrides.Length
        invariant forall j | 0 <= j < i :: !matches(requestConfigOverrides[j].pattern, url)
        invariant LookupIn(all, defaultRequestConfig, url, matches)
                  == LookupIn(all[i..], defaultRequestConfig, url, matches)
      {
        if matches(requestConfigOverrides[i].pattern, url) {
          return requestConfigOverrides[i].config;
        }
        assert all[i..][1..] == all[i + 1..];
      }
      return defaultRequestConfig;
    }
  }

  /** A slice that cannot be used to write over the elements of s: it lies elsewhere, is s, or
      goes on from s in its spare room. */
  ghost predicate Beside(r: CookieSlice, s: CookieSlice) {
    r.NilSlice? || s.NilSlice? || r.backing != s.backing || r == s || (HasRoom(s) && r.len >= s.len)
  }

  twostate predicate Kept(s: CookieSlice)
    requires ValidSlice(s)
    reads BackingOf(s)
  {
    s.Slice? ==> forall k | 0 <= k < s.len :: s.backing[k] == old(s.backing[k])
  }

  /** r refers to what start refers to, or to memory of its own. */
  twostate predicate StemsFrom(start: BrowserConfig, new r: BrowserConfig)
    reads r
  {
    && r.Valid()
    && r.requestConfigOverrides == old(start.requestConfigOverrides)
    && (r.headers == old(start.headers) || (r.headers != null && fresh(r.headers)))
    && (|| r.cookies.NilSlice? || fresh(r.cookies.backing)
        || (old(start.cookies).Slice? && r.cookies.backing == old(start.cookies).backing))
  }

  /** The function that a rendering option returns, applied to a configuration. The parameter is
      copied, as Go does; the references in it are not. Kept besides are the elements of any
      slice s that the cookies of the configuration cannot be used to write over. */
  method ApplyOption(o: RenderingOption, cfg: BrowserConfig, ghost s: CookieSlice) returns (r: BrowserConfig, err: bool)
    requires cfg.Valid() && ValidSlice(s) && Beside(cfg.cookies, s)
    modifies cfg.requestConfigOverrides, cfg.headers, SpareOf(cfg.cookies)
    ensures fresh(r) && Kept(s)
    ensures err == Rejected(o)
    ensures !err ==> StemsFrom(cfg, r) && Beside(r.cookies, s)
    ensures !err ==> r.Value() == Apply(o, old(cfg.Value()))
  {
    r := new BrowserConfig.CopyOf(cfg);
    match o {
      case WithTimeZone(location) =>
        if location.None? || location.value == "" {
          r := ZeroConfig();
          return r, true;
        }
      case WithHeader(name, _) =>
        if name == "" {
          r := ZeroConfig();
          return r, true;
        }
      case WithPageScaleFactor(factor) =>
        if factor <= 0.0 {
          return r, true;
        }
      case _ =>
    }
    ApplyAccepted(o, r, s);
    err := false;
  }

  /** The part of an option behind its checks, on the copy that the option made. */
  method ApplyAccepted(o: RenderingOption, r: BrowserConfig, ghost s: CookieSlice)
    requires !Rejected(o) && r.Valid() && ValidSlice(s) && Beside(r.cookies, s)
    modifies r, r.requestConfigOverrides, r.headers, SpareOf(r.cookies)
    ensures StemsFrom(r, r) && Beside(r.cookies, s) && Kept(s)
    ensures r.Value() == Apply(o, old(r.Value()))
  {
    match o {
      case WithTimeZone(location) => r.timeZone := location.value;
      case WithCookie(params) => AddCookie(r, params, s);
      case WithHeader(name, value) => SetHeader(r, name, value);
      case _ => RetouchConfig(o, r);
    }
  }

  method ZeroConfig() returns (r: BrowserConfig)
    ensures fresh(r)
  {
    r := new BrowserConfig.Empty();
  }

  method SetHeader(r: BrowserConfig, name: string, value: string)
    requires r.Valid()
    modifies r`headers, r.headers
    ensures r.Valid() && r.Value() == Apply(WithHeader(name, value), old(r.Value()))
    ensures if old(r.headers) == null then r.headers != null && fresh(r.headers) else r.headers == old(r.headers)
  {
    if r.headers == null {
      r.headers := new Headers(map[]);
    }
    r.headers.entries := r.headers.entries[name := value];
  }

  method AddCookie(r: BrowserConfig, params: CookieParams, ghost s: CookieSlice)
    requires r.Valid() && ValidSlice(s) && Beside(r.cookies, s)
    modifies r`cookies, SpareOf(r.cookies)
    ensures r.Valid() && r.Value() == Apply(WithCookie(params), old(r.Value()))
    ensures Elements(r.cookies) == old(Elements(r.cookies)) + [params]
    ensures r.cookies.Slice? && (HasRoom(old(r.cookies)) ==> r.cookies == Slice(old(r.cookies).backing, old(r.cookies).len + 1))
    ensures !HasRoom(old(r.cookies)) ==> fresh(r.cookies.backing)
    ensures Beside(r.cookies, s) && Kept(s)
  {
    var cookie := new Cookie(params);
    var cookies := Append(r.cookies, cookie);
    r.cookies := cookies;
  }

  /** ApplyAll with the function of an option, seen as values. */
  method RetouchConfig(o: RenderingOption, r: BrowserConfig)
    requires r.Valid()
    requires o.WithViewport? || o.WithPageScaleFactor? || o.WithLandscape? || o.WithForcePolling?
    modifies r`defaultRequestConfig, r.requestConfigOverrides
    ensures r.Valid() && r.Value() == Apply(o, old(r.Value()))
  {
    r.ApplyAll(rc => Retouch(o, rc));
    assert r.requestConfigOverrides[..] == RetouchOverrides(o, old(r.requestConfigOverrides[..]));
  }

  // ---------- Requests do not interfere ----------

  lemma ApplyOptionsStep(os: seq<RenderingOption>, i: nat, s: Settings)
    requires i < |os|
    ensures ApplyOptions(os[i..], s)
            == if Rejected(os[i]) then None else ApplyOptions(os[i + 1..], Apply(os[i], s))
  {
    assert os[i..][1..] == os[i + 1..];
  }

  /** The fold at the start of Render. */
  method FoldOptions(start: BrowserConfig, os: seq<RenderingOption>) returns (cfg: BrowserConfig, err: bool)
    requires start.Valid()
    modifies start.requestConfigOverrides, start.headers, SpareOf(start.cookies)
    ensures Kept(start.cookies)
    ensures err == ApplyOptions(os, old(start.Value())).None?
    ensures !err ==> (cfg == start || fresh(cfg)) && StemsFrom(start, cfg) && Beside(cfg.cookies, start.cookies)
    ensures !err ==> cfg.Value() == ApplyOptions(os, old(start.Value())).value
  {
    cfg := start;
    ghost var wanted, s := ApplyOptions(os, start.Value()), start.cookies;
    assert os[0..] == os;
    for i := 0 to |os|
      invariant cfg == start || fresh(cfg)
      invariant StemsFrom(start, cfg) && Beside(cfg.cookies, s) && Kept(s)
      invariant wanted == ApplyOptions(os[i..], cfg.Value())
    {
      ApplyOptionsStep(os, i, cfg.Value());
      cfg, err := ApplyOption(os[i], cfg, s);
      if err {
        return cfg, true;
      }
    }
    err := false;
  }

  /** The start of Render: clone the service's configuration, then fold the options of the
      request over the clone. The request ends in the service's settings with its own options,
      and the service keeps its settings, even when an option fails midway. Nothing that existed
      before is written but the array of the service's cookies; as every configuration is built
      there is none. */
  method PrepareRequest(service: BrowserConfig, os: seq<RenderingOption>) returns (cfg: BrowserConfig, err: bool)
    requires service.Valid()
    modifies BackingOf(service.cookies)
    ensures service.Valid() && service.Value() == old(service.Value())
    ensures err == ApplyOptions(os, old(service.Value())).None?
    ensures !err ==> KeptApart(service, cfg)
    ensures !err ==> cfg.Value() == ApplyOptions(os, old(service.Value())).value
  {
    var clone := service.DeepClone();
    ghost var overrides := service.requestConfigOverrides[..];
    cfg, err := FoldOptions(clone, os);
    assert service.requestConfigOverrides[..] == overrides;
  }

  /** The configuration of a request shares nothing with the service but, perhaps, its cookies. */
  twostate predicate KeptApart(service: BrowserConfig, new cfg: BrowserConfig)
    reads service, cfg
  {
    && cfg.Valid() && Beside(cfg.cookies, service.cookies)
    && fresh(cfg) && fresh(cfg.requestConfigOverrides) && (cfg.headers != null ==> fresh(cfg.headers))
    && (|| cfg.cookies.NilSlice? || fresh(cfg.cookies.backing)
        || (service.cookies.Slice? && cfg.cookies.backing == service.cookies.backing))
  }

  /** The configuration of a request is the service's settings with its options, or there is none
      when an option was rejected. */
  ghost predicate Prepared(service: Settings, os: seq<RenderingOption>, cfg: BrowserConfig?)
    reads cfg, if cfg == null then {} else cfg.Shared()
  {
    match ApplyOptions(os, service)
    case None => cfg == null
    case Some(s) => cfg != null && cfg.Valid() && cfg.Value() == s
  }

  /** One more request. It writes nothing but the array of the service's cookies, and there only
      equal ones, so that it does not show in any configuration beside them. */
  method ServeNext(service: BrowserConfig, os: seq<RenderingOption>, ghost cfgs: seq<BrowserConfig?>)
    returns (cfg: BrowserConfig?)
    requires service.Valid() && !HasRoom(service.cookies)
    requires forall k | 0 <= k < |cfgs| && cfgs[k] != null :: cfgs[k].Valid() && Beside(cfgs[k].cookies, service.cookies)
    modifies BackingOf(service.cookies)
    ensures service.Valid() && service.Value() == old(service.Value())
    ensures Prepared(old(service.Value()), os, cfg) && (cfg != null ==> Beside(cfg.cookies, service.cookies))
    ensures forall k | 0 <= k < |cfgs| && cfgs[k] != null :: cfgs[k].Valid() && cfgs[k].Value() == old(cfgs[k].Value())
  {
    var prepared, err := PrepareRequest(service, os);
    cfg := if err then null else prepared;
    assert service.Value().cookies == old(service.Value().cookies);
    forall k | 0 <= k < |cfgs| && cfgs[k] != null
      ensures cfgs[k].Value() == old(cfgs[k].Value())
    {
      var c := cfgs[k];
      assert c.requestConfigOverrides[..] == old(c.requestConfigOverrides[..]);
      assert Elements(c.cookies) == old(Elements(c.cookies)) by {
        if c.cookies.Slice? && c.cookies != service.cookies {
          assert c.cookies.backing[..] == old(c.cookies.backing[..]);
        }
      }
    }
  }

  /** Any number of requests, served one after the other by a service whose cookies leave no
      spare room, as the nil slice of every configuration that is built: each ends in the
      configuration that depends on the service's configuration and its own options alone, and
      keeps it while the later ones are served. */
  method ServeRequests(service: BrowserConfig, requests: seq<seq<RenderingOption>>)
    returns (cfgs: seq<BrowserConfig?>)
    requires service.Valid() && !HasRoom(service.cookies)
    modifies BackingOf(service.cookies)
    ensures |cfgs| == |requests|
    ensures service.Value() == old(service.Value())
    ensures forall k | 0 <= k < |cfgs| :: Prepared(service.Value(), requests[k], cfgs[k])
  {
    cfgs := [];
    for i := 0 to |requests|
      invariant |cfgs| == i && service.Value() == old(service.Value())
      invariant forall k | 0 <= k < i && cfgs[k] != null :: cfgs[k].Valid() && Beside(cfgs[k].cookies, service.cookies)
      invariant forall k | 0 <= k < i :: Prepared(service.Value(), requests[k], cfgs[k])
    {
      var cfg := ServeNext(service, requests[i], cfgs);
      cfgs := cfgs + [cfg];
    }
  }

  // ---------- What DeepClone does not clone ----------

  /** A clone of a service with cookies, and the cookie of one request added to it. */
  method CloneWithCookie(service: BrowserConfig, params: CookieParams) returns (cfg: BrowserConfig)
    requires service.Valid() && service.cookies.Slice?
    modifies service.cookies.backing
    ensures fresh(cfg) && cfg.Valid() && Elements(cfg.cookies) == old(Elements(service.cookies)) + [params]
    ensures Elements(service.cookies) == old(Elements(service.cookies))
    ensures cfg.cookies.Slice? && cfg.cookies.len == service.cookies.len + 1
    ensures if HasRoom(service.cookies) then cfg.cookies.backing == service.cookies.backing else fresh(cfg.cookies.backing)
  {
    cfg := service.DeepClone();
    AddCookie(cfg, params, service.cookies);
    ghost var all := Elements(cfg.cookies);
    assert HasRoom(service.cookies) ==> Elements(service.cookies) == all[..|all| - 1];
  }

  /** Were the service to have cookies, two requests would share their array: when it has spare
      room, the cookie of the second request replaces that of the first in the first's own
      configuration. Only a full array keeps them apart. */
  method ClonesShareCookies(service: BrowserConfig, first: CookieParams, second: CookieParams)
    returns (a: BrowserConfig, b: BrowserConfig)
    requires service.Valid() && service.cookies.Slice?
    modifies service.cookies.backing
    ensures a.Valid() && b.Valid()
    ensures Elements(b.cookies) == old(Elements(service.cookies)) + [second]
    ensures Elements(a.cookies)
            == old(Elements(service.cookies)) + [if HasRoom(service.cookies) then second else first]
  {
    a := CloneWithCookie(service, first);
    ghost var own := Elements(a.cookies);
    b := CloneWithCookie(service, second);
    if HasRoom(service.cookies) {
      assert a.cookies == b.cookies;
    } else {
      assert Elements(a.cookies) == own;
    }
  }
}
