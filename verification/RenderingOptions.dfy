/** The rendering options of a request and the per-URL settings they act on, as values: what an
    option means for one RequestConfig, for the whole browser configuration, and for the
    configuration that is then looked up for a URL. */
module RenderingOptions {
  import opened RequestConfigs

  datatype Option<T> = None | Some(value: T)

  datatype CookieParams = CookieParams(name: string, value: string, domain: string)

  /** A URL pattern and its settings. The compiled pattern is represented by its text. */
  datatype Override = Override(pattern: string, config: RequestConfig)

  /** The value of a config.BrowserConfig, as far as options can change it. */
  datatype Settings = Settings(
    timeZone: string,
    cookies: seq<CookieParams>,
    headers: Option<map<string, string>>,
    defaults: RequestConfig,
    overrides: seq<Override>
  )

  datatype RenderingOption =
    | WithTimeZone(location: Option<string>)
    | WithCookie(cookie: CookieParams)
    | WithHeader(name: string, value: string)
    | WithViewport(width: int, height: int)
    | WithPageScaleFactor(factor: real)
    | WithLandscape(landscape: bool)
    | WithForcePolling(force: bool)

  /** The options that return an error. */
  predicate Rejected(o: RenderingOption) {
    match o
    case WithTimeZone(location) => location.None? || location.value == ""
    case WithHeader(name, _) => name == ""
    case WithPageScaleFactor(factor) => factor <= 0.0
    case _ => false
  }

  function Clamped(v: int, minimum: int, maximum: int): int {
    if v < minimum then minimum
    else if v > maximum && maximum > 0 then maximum
    else v
  }

  /** What an option does to one RequestConfig: the function that ApplyAll is called with. */
  function Retouch(o: RenderingOption, rc: RequestConfig): RequestConfig {
    match o
    case WithViewport(width, height) =>
      rc.(minWidth := if width != -1 then Clamped(width, rc.minWidth, rc.maxWidth) else rc.minWidth,
          minHeight := if height != -1 then Clamped(height, rc.minHeight, rc.maxHeight) else rc.minHeight)
    case WithPageScaleFactor(factor) =>
      rc.(pageScaleFactor := if factor > rc.maxPageScaleFactor then rc.maxPageScaleFactor else factor)
    case WithLandscape(landscape) => rc.(landscape := landscape)
    case WithForcePolling(force) => rc.(forcePollingMode := force)
    case _ => rc
  }

  function RetouchAll(os: seq<RenderingOption>, rc: RequestConfig): RequestConfig {
    if os == [] then rc else RetouchAll(os[1..], Retouch(os[0], rc))
  }

  function RetouchOverrides(o: RenderingOption, overrides: seq<Override>): (r: seq<Override>)
    ensures |r| == |overrides|
  {
    seq(|overrides|, i requires 0 <= i < |overrides| =>
      overrides[i].(config := Retouch(o, overrides[i].config)))
  }

  /** What an accepted option does to the whole configuration. */
  function Apply(o: RenderingOption, s: Settings): Settings {
    match o
    case WithTimeZone(location) => if location.Some? then s.(timeZone := location.value) else s
    case WithCookie(cookie) => s.(cookies := s.cookies + [cookie])
    case WithHeader(name, value) =>
      s.(headers := Some((if s.headers.Some? then s.headers.value else map[])[name := value]))
    case _ => s.(defaults := Retouch(o, s.defaults), overrides := RetouchOverrides(o, s.overrides))
  }

  /** The fold at the start of Render: the options in order, or None from the first rejected on. */
  function ApplyOptions(os: seq<RenderingOption>, s: Settings): Option<Settings> {
    if os == [] then Some(s)
    else if Rejected(os[0]) then None
    else ApplyOptions(os[1..], Apply(os[0], s))
  }

  /** LookupRequestConfig: the first override whose pattern matches, or the default. */
  function Lookup(s: Settings, url: string, matches: (string, string) -> bool): RequestConfig {
    LookupIn(s.overrides, s.defaults, url, matches)
  }

  function LookupIn(overrides: seq<Override>, defaults: RequestConfig, url: string,
                    matches: (string, string) -> bool): RequestConfig
  {
    if overrides == [] then defaults
    else if matches(overrides[0].pattern, url) then overrides[0].config
    else LookupIn(overrides[1..], defaults, url, matches)
  }

  /** The first match decides, and without a match the default. */
  lemma {:induction false} LookupFindsFirst(overrides: seq<Override>, defaults: RequestConfig, url: string,
                                            matches: (string, string) -> bool)
    ensures var rc := LookupIn(overrides, defaults, url, matches);
            || (rc == defaults && forall j | 0 <= j < |overrides| :: !matches(overrides[j].pattern, url))
            || exists i ::
                 && 0 <= i < |overrides| && matches(overrides[i].pattern, url) && rc == overrides[i].config
                 && forall j | 0 <= j < i :: !matches(overrides[j].pattern, url)
  {
    if overrides != [] && !matches(overrides[0].pattern, url) {
      var rest := overrides[1..];
      LookupFindsFirst(rest, defaults, url, matches);
      assert forall j | 0 < j < |overrides| :: overrides[j] == rest[j - 1];
      if !(forall j | 0 <= j < |rest| :: !matches(rest[j].pattern, url)) {
        var i :| 0 <= i < |rest| && matches(rest[i].pattern, url)
          && LookupIn(overrides, defaults, url, matches) == rest[i].config
          && forall j | 0 <= j < i :: !matches(rest[j].pattern, url);
        assert overrides[i + 1] == rest[i];
      }
    }
  }

  // ---------- Lookup commutes with options ----------

  lemma {:induction false} LookupInCommutes(o: RenderingOption, overrides: seq<Override>, defaults: RequestConfig,
                                            url: string, matches: (string, string) -> bool)
    ensures LookupIn(RetouchOverrides(o, overrides), Retouch(o, defaults), url, matches)
            == Retouch(o, LookupIn(overrides, defaults, url, matches))
  {
    if overrides != [] {
      assert RetouchOverrides(o, overrides)[1..] == RetouchOverrides(o, overrides[1..]);
      LookupInCommutes(o, overrides[1..], defaults, url, matches);
    }
  }

  lemma SameWhenUntouched(o: RenderingOption, s: Settings)
    requires o.WithTimeZone? || o.WithCookie? || o.WithHeader?
    ensures Apply(o, s).defaults == s.defaults && Apply(o, s).overrides == s.overrides
    ensures forall rc :: Retouch(o, rc) == rc
  {
  }

  /** Looking up a URL after applying any options is applying them to the settings looked up
      first: options never change which override a URL selects. */
  lemma {:induction false} LookupCommutesWithOptions(os: seq<RenderingOption>, s: Settings, url: string,
                                                     matches: (string, string) -> bool)
    requires ApplyOptions(os, s).Some?
    ensures Lookup(ApplyOptions(os, s).value, url, matches) == RetouchAll(os, Lookup(s, url, matches))
  {
    if os != [] {
      var o := os[0];
      if o.WithTimeZone? || o.WithCookie? || o.WithHeader? {
        SameWhenUntouched(o, s);
      } else {
        LookupInCommutes(o, s.overrides, s.defaults, url, matches);
      }
      LookupCommutesWithOptions(os[1..], Apply(o, s), url, matches);
    }
  }

  /** Options keep the patterns, their number and their order. */
  lemma {:induction false} OptionsKeepPatterns(os: seq<RenderingOption>, s: Settings, i: nat)
    requires ApplyOptions(os, s).Some?
    ensures |ApplyOptions(os, s).value.overrides| == |s.overrides|
    ensures i < |s.overrides| ==> ApplyOptions(os, s).value.overrides[i].pattern == s.overrides[i].pattern
  {
    if os != [] {
      OptionsKeepPatterns(os[1..], Apply(os[0], s), i);
    }
  }

  /** The options are accepted as a whole exactly when none of them is rejected. */
  lemma {:induction false} AcceptedExactlyWhenNoneRejected(os: seq<RenderingOption>, s: Settings)
    ensures ApplyOptions(os, s).Some? <==> forall k | 0 <= k < |os| :: !Rejected(os[k])
  {
    if os != [] {
      AcceptedExactlyWhenNoneRejected(os[1..], Apply(os[0], s));
      if ApplyOptions(os, s).Some? {
        forall k | 0 <= k < |os| ensures !Rejected(os[k]) {
          if k > 0 { assert os[k] == os[1..][k - 1]; }
        }
      }
    }
  }

  /** What is rejected: a missing or unnamed time zone, a header without name, a scale that is not
      positive. */
  lemma RejectedExactly(o: RenderingOption)
    ensures Rejected(o) <==>
              || o == WithTimeZone(None) || o == WithTimeZone(Some(""))
              || (o.WithHeader? && o.name == "")
              || (o.WithPageScaleFactor? && o.factor <= 0.0)
  {
  }

  // ---------- What options leave behind ----------

  /** The cookies of the options, in order. */
  function CookiesOf(os: seq<RenderingOption>): seq<CookieParams> {
    if os == [] then []
    else (if os[0].WithCookie? then [os[0].cookie] else []) + CookiesOf(os[1..])
  }

  /** Every cookie is added, in order, behind those of the service. */
  lemma {:induction false} CookiesAreAppended(os: seq<RenderingOption>, s: Settings)
    requires ApplyOptions(os, s).Some?
    ensures ApplyOptions(os, s).value.cookies == s.cookies + CookiesOf(os)
  {
    if os != [] {
      var s', own := Apply(os[0], s), if os[0].WithCookie? then [os[0].cookie] else [];
      assert s'.cookies == s.cookies + own;
      CookiesAreAppended(os[1..], s');
      assert s.cookies + own + CookiesOf(os[1..]) == s.cookies + (own + CookiesOf(os[1..]));
    }
  }

  lemma {:induction false} TimeZoneStays(os: seq<RenderingOption>, s: Settings)
    requires ApplyOptions(os, s).Some? && forall k | 0 <= k < |os| :: !os[k].WithTimeZone?
    ensures ApplyOptions(os, s).value.timeZone == s.timeZone
  {
    if os != [] {
      TimeZoneStays(os[1..], Apply(os[0], s));
    }
  }

  /** The last time zone asked for is used; without any, that of the service is (TimeZoneStays). */
  lemma {:induction false} LastTimeZoneWins(os: seq<RenderingOption>, k: nat, s: Settings)
    requires ApplyOptions(os, s).Some? && k < |os| && os[k].WithTimeZone?
    requires forall j | k < j < |os| :: !os[j].WithTimeZone?
    ensures os[k].location == Some(ApplyOptions(os, s).value.timeZone)
  {
    if k == 0 {
      TimeZoneStays(os[1..], Apply(os[0], s));
    } else {
      LastTimeZoneWins(os[1..], k - 1, Apply(os[0], s));
    }
  }

  /** The header of a name, if there is one. */
  function HeaderOf(headers: Option<map<string, string>>, name: string): Option<string> {
    if headers.Some? && name in headers.value then Some(headers.value[name]) else None
  }

  predicate IsHeader(o: RenderingOption, name: string) {
    o.WithHeader? && o.name == name
  }

  /** A header that no option names stays as it was. */
  lemma {:induction false} HeaderStays(os: seq<RenderingOption>, s: Settings, name: string)
    requires ApplyOptions(os, s).Some? && forall k | 0 <= k < |os| :: !IsHeader(os[k], name)
    ensures HeaderOf(ApplyOptions(os, s).value.headers, name) == HeaderOf(s.headers, name)
  {
    if os != [] {
      assert HeaderOf(Apply(os[0], s).headers, name) == HeaderOf(s.headers, name);
      HeaderStays(os[1..], Apply(os[0], s), name);
    }
  }

  /** Of several values for a header the last one is sent. */
  lemma {:induction false} LastHeaderWins(os: seq<RenderingOption>, k: nat, s: Settings, name: string)
    requires ApplyOptions(os, s).Some? && k < |os| && IsHeader(os[k], name)
    requires forall j | k < j < |os| :: !IsHeader(os[j], name)
    ensures HeaderOf(ApplyOptions(os, s).value.headers, name) == Some(os[k].value)
  {
    if k == 0 {
      HeaderStays(os[1..], Apply(os[0], s), name);
    } else {
      LastHeaderWins(os[1..], k - 1, Apply(os[0], s), name);
    }
  }

  /** A header map is made only for requests with headers. */
  lemma {:induction false} NoHeaderNoMap(os: seq<RenderingOption>, s: Settings)
    requires ApplyOptions(os, s).Some? && forall k | 0 <= k < |os| :: !os[k].WithHeader?
    ensures ApplyOptions(os, s).value.headers == s.headers
  {
    if os != [] {
      NoHeaderNoMap(os[1..], Apply(os[0], s));
    }
  }

  /** r is rc but for the five fields that options are about. */
  ghost predicate SameButForOptions(rc: RequestConfig, r: RequestConfig) {
    r == rc.(minWidth := r.minWidth, minHeight := r.minHeight, pageScaleFactor := r.pageScaleFactor,
             landscape := r.landscape, forcePollingMode := r.forcePollingMode)
  }

  lemma RetouchTouches(o: RenderingOption, rc: RequestConfig)
    ensures SameButForOptions(rc, Retouch(o, rc))
  {
  }

  lemma SameButTransitive(a: RequestConfig, b: RequestConfig, c: RequestConfig)
    requires SameButForOptions(a, b) && SameButForOptions(b, c)
    ensures SameButForOptions(a, c)
  {
  }

  /** No option touches any other field. */
  lemma {:induction false} OptionsTouchTheirFieldsOnly(os: seq<RenderingOption>, rc: RequestConfig)
    ensures SameButForOptions(rc, RetouchAll(os, rc))
  {
    if os != [] {
      var r := Retouch(os[0], rc);
      RetouchTouches(os[0], rc);
      OptionsTouchTheirFieldsOnly(os[1..], r);
      SameButTransitive(rc, r, RetouchAll(os[1..], r));
    }
  }

  /** What only certain options change stays without them. */
  lemma {:induction false} UnaskedStays<T>(os: seq<RenderingOption>, rc: RequestConfig,
                                           field: RequestConfig -> T, asks: RenderingOption -> bool)
    requires forall o, r | !asks(o) :: field(Retouch(o, r)) == field(r)
    requires forall k | 0 <= k < |os| :: !asks(os[k])
    ensures field(RetouchAll(os, rc)) == field(rc)
  {
    if os != [] {
      UnaskedStays(os[1..], Retouch(os[0], rc), field, asks);
    }
  }

  /** Without a size request for it, a side of the viewport stays. */
  lemma UnaskedViewportStays(os: seq<RenderingOption>, rc: RequestConfig)
    ensures (forall k | 0 <= k < |os| :: !(os[k].WithViewport? && os[k].width != -1)) ==>
              RetouchAll(os, rc).minWidth == rc.minWidth
    ensures (forall k | 0 <= k < |os| :: !(os[k].WithViewport? && os[k].height != -1)) ==>
              RetouchAll(os, rc).minHeight == rc.minHeight
  {
    if forall k | 0 <= k < |os| :: !(os[k].WithViewport? && os[k].width != -1) {
      UnaskedStays(os, rc, (r: RequestConfig) => r.minWidth, (o: RenderingOption) => o.WithViewport? && o.width != -1);
    }
    if forall k | 0 <= k < |os| :: !(os[k].WithViewport? && os[k].height != -1) {
      UnaskedStays(os, rc, (r: RequestConfig) => r.minHeight, (o: RenderingOption) => o.WithViewport? && o.height != -1);
    }
  }

  lemma UnaskedScaleStays(os: seq<RenderingOption>, rc: RequestConfig)
    requires forall k | 0 <= k < |os| :: !os[k].WithPageScaleFactor?
    ensures RetouchAll(os, rc).pageScaleFactor == rc.pageScaleFactor
  {
    UnaskedStays(os, rc, (r: RequestConfig) => r.pageScaleFactor, (o: RenderingOption) => o.WithPageScaleFactor?);
  }

  lemma UnaskedOrientationStays(os: seq<RenderingOption>, rc: RequestConfig)
    requires forall k | 0 <= k < |os| :: !os[k].WithLandscape?
    ensures RetouchAll(os, rc).landscape == rc.landscape
  {
    UnaskedStays(os, rc, (r: RequestConfig) => r.landscape, (o: RenderingOption) => o.WithLandscape?);
  }

  lemma UnaskedPollingStays(os: seq<RenderingOption>, rc: RequestConfig)
    requires forall k | 0 <= k < |os| :: !os[k].WithForcePolling?
    ensures RetouchAll(os, rc).forcePollingMode == rc.forcePollingMode
  {
    UnaskedStays(os, rc, (r: RequestConfig) => r.forcePollingMode, (o: RenderingOption) => o.WithForcePolling?);
  }

  // ---------- Validity ----------

  /** One dimension as the flag validators and requestConfigFromCommand leave it. */
  predicate ValidRange(minimum: int, maximum: int) {
    100 <= minimum && (maximum < 0 || (100 <= maximum && minimum <= maximum))
  }

  predicate ValidRequestConfig(rc: RequestConfig) {
    && ValidRange(rc.minWidth, rc.maxWidth)
    && ValidRange(rc.minHeight, rc.maxHeight)
    && 0.0 < rc.pageScaleFactor <= rc.maxPageScaleFactor
  }

  ghost predicate StaysValid(rc: RequestConfig, r: RequestConfig) {
    && ValidRequestConfig(r)
    && r.minWidth >= rc.minWidth && r.minHeight >= rc.minHeight
    && r.maxWidth == rc.maxWidth && r.maxHeight == rc.maxHeight
    && r.maxPageScaleFactor == rc.maxPageScaleFactor
  }

  lemma RetouchStaysValid(o: RenderingOption, rc: RequestConfig)
    requires ValidRequestConfig(rc) && !Rejected(o)
    ensures StaysValid(rc, Retouch(o, rc))
  {
  }

  /** No list of accepted options makes valid settings invalid, shrinks the viewport, or touches
      the configured maxima. */
  lemma {:induction false} OptionsKeepValidity(os: seq<RenderingOption>, rc: RequestConfig)
    requires ValidRequestConfig(rc) && forall k | 0 <= k < |os| :: !Rejected(os[k])
    ensures StaysValid(rc, RetouchAll(os, rc))
  {
    if os != [] {
      RetouchStaysValid(os[0], rc);
      OptionsKeepValidity(os[1..], Retouch(os[0], rc));
    }
  }

  // ---------- The viewport that a list of options ends in ----------

  datatype Side = Width | Height

  function Least(side: Side, rc: RequestConfig): int {
    if side.Width? then rc.minWidth else rc.minHeight
  }

  function Most(side: Side, rc: RequestConfig): int {
    if side.Width? then rc.maxWidth else rc.maxHeight
  }

  /** What an option asks for; -1 asks for nothing. */
  function Asked(side: Side, o: RenderingOption): int {
    if !o.WithViewport? then -1 else if side.Width? then o.width else o.height
  }

  /** The widths or heights that were asked for. */
  function Requested(side: Side, os: seq<RenderingOption>): set<int> {
    set k | 0 <= k < |os| && Asked(side, os[k]) != -1 :: Asked(side, os[k])
  }

  /** m is the least or the largest request, but no more than a positive maximum. */
  ghost predicate IsViewportSide(m: int, least: int, requests: set<int>, maximum: int) {
    exists largest :: IsLargest(largest, requests + {least}) && m == if 0 < maximum < largest then maximum else largest
  }

  ghost predicate IsLargest(x: int, xs: set<int>) {
    x in xs && forall y | y in xs :: y <= x
  }

  lemma ViewportSideIsUnique(m: int, m': int, least: int, requests: set<int>, maximum: int)
    requires IsViewportSide(m, least, requests, maximum) && IsViewportSide(m', least, requests, maximum)
    ensures m == m'
  {
  }

  /** One more request, made before the others, only joins the set that the largest is taken of. */
  lemma SideAfterRequest(m: int, least: int, w: int, requests: set<int>, maximum: int)
    requires ValidRange(least, maximum)
    requires IsViewportSide(m, Clamped(w, least, maximum), requests, maximum)
    ensures IsViewportSide(m, least, requests + {w}, maximum)
  {
    var l := Clamped(w, least, maximum);
    var x :| IsLargest(x, requests + {l}) && m == if 0 < maximum < x then maximum else x;
    var y := if x in requests && x >= w && x >= least then x else if w >= least then w else least;
    assert IsLargest(y, requests + {w} + {least});
    assert requests + {w} + {least} == (requests + {w}) + {least};
  }

  lemma RequestsOfMore(side: Side, os: seq<RenderingOption>)
    requires os != []
    ensures Requested(side, os)
            == Requested(side, os[1..]) + if Asked(side, os[0]) != -1 then {Asked(side, os[0])} else {}
  {
    assert forall k | 1 <= k < |os| :: os[k] == os[1..][k - 1];
    assert forall k | 0 <= k < |os[1..]| :: os[1..][k] == os[k + 1];
  }

  lemma SideAfterOption(side: Side, o: RenderingOption, rc: RequestConfig, r: RequestConfig)
    requires ValidRange(Least(side, rc), Most(side, rc)) && r == Retouch(o, rc)
    ensures Most(side, r) == Most(side, rc) && ValidRange(Least(side, r), Most(side, r))
    ensures Least(side, r)
            == if Asked(side, o) != -1 then Clamped(Asked(side, o), Least(side, rc), Most(side, rc)) else Least(side, rc)
  {
  }

  lemma SideWithOption(side: Side, os: seq<RenderingOption>, least: int, next: int, maximum: int, m: int)
    requires os != [] && ValidRange(least, maximum)
    requires next == if Asked(side, os[0]) != -1 then Clamped(Asked(side, os[0]), least, maximum) else least
    requires IsViewportSide(m, next, Requested(side, os[1..]), maximum)
    ensures IsViewportSide(m, least, Requested(side, os), maximum)
  {
    RequestsOfMore(side, os);
    if Asked(side, os[0]) != -1 {
      SideAfterRequest(m, least, Asked(side, os[0]), Requested(side, os[1..]), maximum);
    } else {
      assert Requested(side, os) == Requested(side, os[1..]);
    }
  }

  /** Each side of the viewport of a request is decided by the largest size it asked for, clamped
      to the configured range. */
  lemma {:induction false} ViewportIsLargestRequest(side: Side, os: seq<RenderingOption>, rc: RequestConfig)
    requires ValidRange(Least(side, rc), Most(side, rc))
    ensures IsViewportSide(Least(side, RetouchAll(os, rc)), Least(side, rc), Requested(side, os), Most(side, rc))
  {
    if os == [] {
      assert IsLargest(Least(side, rc), Requested(side, os) + {Least(side, rc)});
    } else {
      var r := Retouch(os[0], rc);
      SideAfterOption(side, os[0], rc, r);
      ViewportIsLargestRequest(side, os[1..], r);
      SideWithOption(side, os, Least(side, rc), Least(side, r), Most(side, rc), Least(side, RetouchAll(os, rc)));
    }
  }

  /** The viewport that the browser is given for a URL: that of the settings the URL selects, under
      the sizes the request asked for. */
  lemma ViewportForUrl(os: seq<RenderingOption>, s: Settings, url: string, matches: (string, string) -> bool)
    requires ApplyOptions(os, s).Some? && ValidRequestConfig(Lookup(s, url, matches))
    ensures var base, used := Lookup(s, url, matches), Lookup(ApplyOptions(os, s).value, url, matches);
            var widths := set k | 0 <= k < |os| && os[k].WithViewport? && os[k].width != -1 :: os[k].width;
            var heights := set k | 0 <= k < |os| && os[k].WithViewport? && os[k].height != -1 :: os[k].height;
            && StaysValid(base, used)
            && IsViewportSide(used.minWidth, base.minWidth, widths, base.maxWidth)
            && IsViewportSide(used.minHeight, base.minHeight, heights, base.maxHeight)
  {
    var base := Lookup(s, url, matches);
    AcceptedExactlyWhenNoneRejected(os, s);
    LookupCommutesWithOptions(os, s, url, matches);
    OptionsKeepValidity(os, base);
    ViewportIsLargestRequest(Width, os, base);
    ViewportIsLargestRequest(Height, os, base);
    RequestedIs(os);
  }

  lemma RequestedIs(os: seq<RenderingOption>)
    ensures Requested(Width, os) == set k | 0 <= k < |os| && os[k].WithViewport? && os[k].width != -1 :: os[k].width
    ensures Requested(Height, os) == set k | 0 <= k < |os| && os[k].WithViewport? && os[k].height != -1 :: os[k].height
  {
  }

  /** The order in which sizes are requested, and repeating a request, make no difference. */
  lemma ViewportIgnoresOrder(side: Side, os: seq<RenderingOption>, os': seq<RenderingOption>, rc: RequestConfig)
    requires ValidRange(Least(side, rc), Most(side, rc)) && Requested(side, os) == Requested(side, os')
    ensures Least(side, RetouchAll(os, rc)) == Least(side, RetouchAll(os', rc))
  {
    ViewportIsLargestRequest(side, os, rc);
    ViewportIsLargestRequest(side, os', rc);
    ViewportSideIsUnique(Least(side, RetouchAll(os, rc)), Least(side, RetouchAll(os', rc)),
                         Least(side, rc), Requested(side, os), Most(side, rc));
  }

  // ---------- The last request of a kind decides ----------

  predicate SameKind(o: RenderingOption, p: RenderingOption) {
    || (o.WithPageScaleFactor? && p.WithPageScaleFactor?)
    || (o.WithLandscape? && p.WithLandscape?)
    || (o.WithForcePolling? && p.WithForcePolling?)
  }

  /** The setting that an option of this kind leaves behind, whatever was there before. */
  ghost predicate Honoured(o: RenderingOption, rc: RequestConfig) {
    match o
    case WithPageScaleFactor(factor) =>
      rc.pageScaleFactor <= factor && rc.pageScaleFactor <= rc.maxPageScaleFactor
      && (rc.pageScaleFactor == factor || rc.pageScaleFactor == rc.maxPageScaleFactor)
    case WithLandscape(landscape) => rc.landscape == landscape
    case WithForcePolling(force) => rc.forcePollingMode == force
    case _ => true
  }

  lemma OtherKindsKeepHonoured(o: RenderingOption, p: RenderingOption, rc: RequestConfig)
    requires !SameKind(o, p) && Honoured(o, rc)
    ensures Honoured(o, Retouch(p, rc))
  {
  }

  lemma {:induction false} HonouredStays(o: RenderingOption, os: seq<RenderingOption>, rc: RequestConfig)
    requires Honoured(o, rc) && forall j | 0 <= j < |os| :: !SameKind(o, os[j])
    ensures Honoured(o, RetouchAll(os, rc))
  {
    if os != [] {
      OtherKindsKeepHonoured(o, os[0], rc);
      HonouredStays(o, os[1..], Retouch(os[0], rc));
    }
  }

  /** Of several scale, orientation or polling options the last one decides: the scale is its
      factor or, if that is larger, the configured maximum. */
  lemma {:induction false} LastOptionOfAKindWins(os: seq<RenderingOption>, k: nat, rc: RequestConfig)
    requires k < |os| && forall j | k < j < |os| :: !SameKind(os[k], os[j])
    ensures Honoured(os[k], RetouchAll(os, rc))
  {
    if k == 0 {
      HonouredStays(os[0], os[1..], Retouch(os[0], rc));
    } else {
      LastOptionOfAKindWins(os[1..], k - 1, Retouch(os[0], rc));
    }
  }

  // ---------- The options of an HTTP render request ----------

  /** The height that a full-page image asks for to make scrolling faster. */
  function ScrollHeight(width: int): int {
    (0.75 * width as real).Floor
  }

  /** The viewport options of the handler, built step by step; -1 stands for a missing value. */
  method ViewportOptions(width: int, height: int, png: bool) returns (options: seq<RenderingOption>)
    ensures Requested(Width, options) == if width == -1 then {} else {width}
    ensures height != -1 || !png || width == -1 ==> Requested(Height, options) == if height == -1 then {} else {height}
    ensures height == -1 && png && width != -1 ==>
              exists h :: Requested(Height, options) == {h} && 4 * h <= 3 * width < 4 * (h + 1)
    ensures forall k | 0 <= k < |options| :: !Rejected(options[k])
  {
    options := [];
    options := options + [WithViewport(width, height)];
    MissingWidthStaysMissing(width);
    ScrollHeightIs(width);
    assert options[0] == WithViewport(width, height);
    if png {
      if height == -1 {
        options := options + [WithViewport(width, ScrollHeight(width))];
        assert options[0] == WithViewport(width, -1) && options[1] == WithViewport(width, ScrollHeight(width));
        assert width != -1 ==> Requested(Height, options) == {ScrollHeight(width)};
      }
    }
  }

  lemma ScrollHeightIs(width: int)
    ensures 4 * ScrollHeight(width) <= 3 * width < 4 * (ScrollHeight(width) + 1)
  {
    assert ScrollHeight(width) as real <= 0.75 * width as real < (ScrollHeight(width) + 1) as real;
  }

  /** Three quarters of a width are the missing value exactly when the width is missing. */
  lemma MissingWidthStaysMissing(width: int)
    ensures ScrollHeight(width) == -1 <==> width == -1
  {
    assert ScrollHeight(width) as real <= 0.75 * width as real < (ScrollHeight(width) + 1) as real;
  }
}
