/**
 * The outermost response wrapper (http_cors.py): which origins are allowed, which
 * headers are added, and what is sent for every behaviour of the wrapped app.
 */
module CorsMiddleware {
  import opened Common
  import opened PyText

  // ----- Allowed origins -----

  function SplitOn(s: string, c: char): seq<string> {
    match Find(s, [c])
    case Some(k) => [s[..k]] + SplitOn(s[k + 1..], c)
    case None => [s]
  }

  function RstripSlashes(s: string): string {
    if s != "" && s[|s| - 1] == '/' then RstripSlashes(s[..|s| - 1]) else s
  }

  predicate NonEmpty(o: string) { o != "" }

  datatype Settings = Settings(corsOrigins: string, frontendUrl: string, appEnv: string)

  const PRODUCTION_ORIGINS := ["https://comicosapp.com", "https://www.comicosapp.com"]

  function AllOrigins(s: Settings): seq<string> {
    var configured := Filter(NonEmpty, Map(Strip, SplitOn(s.corsOrigins, ',')));
    var frontend := RstripSlashes(Strip(s.frontendUrl));
    configured + (if frontend != "" then [frontend] else [])
    + (if Lower(s.appEnv) == "production" then PRODUCTION_ORIGINS else [])
  }

  /** Each entry once, where it first stands. */
  function FirstOccurrences(s: seq<string>): seq<string> {
    if s == [] then []
    else
      var n := |s| - 1;
      FirstOccurrences(s[..n]) + if s[n] in s[..n] then [] else [s[n]]
  }

  /** `resolve_cors_origins` */
  method ResolveOrigins(settings: Settings) returns (unique: seq<string>)
    ensures unique == FirstOccurrences(AllOrigins(settings))
  {
    var origins := AllOrigins(settings);
    var seen: set<string> := {};
    unique := [];
    var k := 0;
    while k < |origins|
      invariant 0 <= k <= |origins|
      invariant forall o :: o in seen <==> o in origins[..k]
      invariant unique == FirstOccurrences(origins[..k])
    {
      var origin := origins[k];
      assert origins[..k + 1][..k] == origins[..k];
      if origin !in seen {
        seen := seen + {origin};
        unique := unique + [origin];
      }
      k := k + 1;
    }
    assert origins[..k] == origins;
  }

  /** Deduplication neither loses nor repeats an origin. */
  lemma {:induction false} FirstOccurrencesMeaning(s: seq<string>)
    ensures Distinct(FirstOccurrences(s))
    ensures forall o :: o in FirstOccurrences(s) <==> o in s
  {
    if s != [] {
      var n := |s| - 1;
      FirstOccurrencesMeaning(s[..n]);
      assert s == s[..n] + [s[n]];
    }
  }

  /** It keeps the order of first appearance: a longer list only adds behind. */
  lemma {:induction false} FirstOccurrencesInOrder(s: seq<string>, i: nat)
    requires i < |s| && s[i] !in s[..i]
    ensures FirstOccurrences(s[..i]) + [s[i]] <= FirstOccurrences(s)
    decreases |s|
  {
    var n := |s| - 1;
    if i < n {
      assert s[..n][..i] == s[..i] && s[..n][i] == s[i];
      FirstOccurrencesInOrder(s[..n], i);
    }
  }

  /** In production the two web hosts are always allowed. */
  lemma ProductionHostsAllowed(settings: Settings)
    requires Lower(settings.appEnv) == "production"
    ensures forall o :: o in PRODUCTION_ORIGINS ==> o in FirstOccurrences(AllOrigins(settings))
  {
    FirstOccurrencesMeaning(AllOrigins(settings));
    forall o | o in PRODUCTION_ORIGINS
      ensures o in AllOrigins(settings)
    {
    }
  }

  lemma {:induction false} SplitOnMeaning(s: string, c: char)
    ensures SplitOn(s, c) != [] && forall i :: 0 <= i < |SplitOn(s, c)| ==> c !in SplitOn(s, c)[i]
    ensures Rejoined(SplitOn(s, c), c) == s
    decreases |s|
  {
    var k := Find(s, [c]);
    if k.Some? {
      var first, rest := s[..k.value], s[k.value + 1..];
      SplitOnMeaning(rest, c);
      NotBefore(s, c, k.value);
      assert s[k.value..k.value + 1] == [c];
      assert s == first + [c] + rest;
      assert ([first] + SplitOn(rest, c))[1..] == SplitOn(rest, c);
    } else {
      NotBefore(s, c, |s|);
    }
  }

  lemma NotBefore(s: string, c: char, n: nat)
    requires n <= |s| && forall k :: 0 <= k < n ==> !OccursAt(s, [c], k)
    ensures c !in s[..n]
  {
    forall k | 0 <= k < n
      ensures s[k] != c
    {
      assert !OccursAt(s, [c], k);
      assert s[k..k + 1] == [s[k]];
    }
  }

  /** The pieces written one after another with the separator in between. */
  function Rejoined(pieces: seq<string>, c: char): string {
    if pieces == [] then "" else if |pieces| == 1 then pieces[0] else pieces[0] + [c] + Rejoined(pieces[1..], c)
  }

  lemma {:induction false} RstripSlashesMeaning(s: string)
    ensures RstripSlashes(s) <= s && forall i :: |RstripSlashes(s)| <= i < |s| ==> s[i] == '/'
    ensures RstripSlashes(s) == "" || RstripSlashes(s)[|RstripSlashes(s)| - 1] != '/'
  {
    if s != "" && s[|s| - 1] == '/' {
      RstripSlashesMeaning(s[..|s| - 1]);
    }
  }

  lemma {:induction false} FilterKeeps(p: string -> bool, s: seq<string>)
    ensures forall o :: o in Filter(p, s) <==> o in s && p(o)
  {
    if s != [] {
      FilterKeeps(p, s[1..]);
    }
  }

  /** The text is one of the pieces, stripped. */
  ghost predicate Configured(pieces: seq<string>, o: string) {
    exists k :: 0 <= k < |pieces| && o == Strip(pieces[k])
  }

  lemma ConfiguredMeaning(pieces: seq<string>, o: string)
    ensures o in Filter(NonEmpty, Map(Strip, pieces)) <==> o != "" && Configured(pieces, o)
  {
    FilterKeeps(NonEmpty, Map(Strip, pieces));
    if k :| 0 <= k < |pieces| && o == Strip(pieces[k]) {
      assert Map(Strip, pieces)[k] == o;
    }
  }

  /**
   * The allowed origins: the non-empty pieces of the configured list, stripped; the
   * frontend without its trailing slashes; and in production the two web hosts.
   */
  lemma OriginsMeaning(s: Settings, o: string)
    ensures o in FirstOccurrences(AllOrigins(s))
            <==> o != "" && (|| Configured(SplitOn(s.corsOrigins, ','), o)
                             || o == RstripSlashes(Strip(s.frontendUrl))
                             || (Lower(s.appEnv) == "production"
                                 && (o == "https://comicosapp.com" || o == "https://www.comicosapp.com")))
  {
    var configured := Filter(NonEmpty, Map(Strip, SplitOn(s.corsOrigins, ',')));
    var frontend := RstripSlashes(Strip(s.frontendUrl));
    var hosts := if Lower(s.appEnv) == "production" then PRODUCTION_ORIGINS else [];
    FirstOccurrencesMeaning(AllOrigins(s));
    ConfiguredMeaning(SplitOn(s.corsOrigins, ','), o);
    InOneOf(configured, if frontend != "" then [frontend] else [], hosts, o);
    ProductionOrigins(o);
  }

  lemma InOneOf(a: seq<string>, b: seq<string>, c: seq<string>, o: string)
    ensures o in a + b + c <==> o in a || o in b || o in c
  {
  }

  lemma ProductionOrigins(o: string)
    ensures o in PRODUCTION_ORIGINS <==> o == "https://comicosapp.com" || o == "https://www.comicosapp.com"
    ensures o in PRODUCTION_ORIGINS ==> o != ""
  {
    assert |"https://comicosapp.com"| == 22 && |"https://www.comicosapp.com"| == 26;
  }

  // ----- Headers -----

  /** Names and values are Latin-1 bytes; names compare without regard to ASCII case. */
  datatype Header = Header(name: string, value: string)

  const ALLOW_ORIGIN := "access-control-allow-origin"
  const ALLOW_CREDENTIALS := "access-control-allow-credentials"
  const VARY := "vary"

  predicate HasName(headers: seq<Header>, name: string) {
    exists h <- headers :: Lower(h.name) == name
  }

  /** The headers, followed by each default whose name they lack. */
  function WithDefaults(headers: seq<Header>, defaults: seq<Header>): seq<Header> {
    if defaults == [] then headers
    else
      var n := |defaults| - 1;
      WithDefaults(headers, defaults[..n]) + if HasName(headers, defaults[n].name) then [] else [defaults[n]]
  }

  function CorsDefaults(origin: string): seq<Header> {
    [Header(ALLOW_ORIGIN, origin), Header(ALLOW_CREDENTIALS, "true"), Header(VARY, "Origin")]
  }

  function WithCors(headers: seq<Header>, origin: string): seq<Header> {
    WithDefaults(headers, CorsDefaults(origin))
  }

  /** `_append_cors_headers` */
  method AppendCorsHeaders(headers: seq<Header>, origin: string) returns (out: seq<Header>)
    ensures out == WithCors(headers, origin)
  {
    var names := set h | h in headers :: Lower(h.name);
    assert forall name :: name in names <==> HasName(headers, name);
    ghost var d := CorsDefaults(origin);
    out := headers;
    assert out == WithDefaults(headers, d[..0]);
    if ALLOW_ORIGIN !in names {
      out := out + [Header(ALLOW_ORIGIN, origin)];
    }
    assert d[..1][..0] == d[..0] && out == WithDefaults(headers, d[..1]);
    if ALLOW_CREDENTIALS !in names {
      out := out + [Header(ALLOW_CREDENTIALS, "true")];
    }
    assert d[..2][..1] == d[..1] && out == WithDefaults(headers, d[..2]);
    if VARY !in names {
      out := out + [Header(VARY, "Origin")];
    }
    assert d[..3] == d;
  }

  function Named(headers: seq<Header>, name: string): nat {
    if headers == [] then 0
    else Named(headers[..|headers| - 1], name) + if Lower(headers[|headers| - 1].name) == name then 1 else 0
  }

  lemma {:induction false} NamedMeaning(headers: seq<Header>, name: string)
    ensures Named(headers, name) > 0 <==> HasName(headers, name)
  {
    if headers != [] {
      var n := |headers| - 1;
      NamedMeaning(headers[..n], name);
      assert headers == headers[..n] + [headers[n]];
      if h :| h in headers && Lower(h.name) == name {
        assert h in headers[..n] || h == headers[n];
      }
      if HasName(headers[..n], name) {
        var h :| h in headers[..n] && Lower(h.name) == name;
        assert h in headers;
      }
    }
  }

  lemma OneMoreNamed(headers: seq<Header>, h: Header, name: string)
    ensures Named(headers + [h], name) == Named(headers, name) + if Lower(h.name) == name then 1 else 0
  {
    assert (headers + [h])[..|headers|] == headers;
  }

  /** Lower-case names, no two alike. */
  ghost predicate GoodDefaults(defaults: seq<Header>) {
    && (forall i :: 0 <= i < |defaults| ==> Lower(defaults[i].name) == defaults[i].name)
    && (forall i, j :: 0 <= i < j < |defaults| ==> defaults[i].name != defaults[j].name)
  }

  ghost predicate Names(defaults: seq<Header>, name: string) {
    exists i :: 0 <= i < |defaults| && defaults[i].name == name
  }

  lemma {:induction false} DefaultsKeepHeaders(headers: seq<Header>, defaults: seq<Header>)
    ensures headers <= WithDefaults(headers, defaults)
    decreases |defaults|
  {
    if defaults != [] {
      DefaultsKeepHeaders(headers, defaults[..|defaults| - 1]);
    }
  }

  lemma DefaultStep(before: seq<Header>, present: bool, last: Header, name: string)
    requires Lower(last.name) == last.name
    ensures Named(before + if present then [] else [last], name)
            == Named(before, name) + if !present && last.name == name then 1 else 0
  {
    if present {
      assert before + [] == before;
    } else {
      OneMoreNamed(before, last, name);
    }
  }

  /**
   * A name of a default ends up present once if it was absent, and as often as
   * before if it was not; no other name is added.
   */
  lemma {:induction false} DefaultsCount(headers: seq<Header>, defaults: seq<Header>, name: string)
    requires GoodDefaults(defaults)
    ensures Named(WithDefaults(headers, defaults), name)
            == Named(headers, name) + if Names(defaults, name) && !HasName(headers, name) then 1 else 0
    decreases |defaults|
  {
    if defaults != [] {
      var n := |defaults| - 1;
      NamesMore(defaults, name);
      DefaultsCount(headers, defaults[..n], name);
      DefaultStep(WithDefaults(headers, defaults[..n]), HasName(headers, defaults[n].name), defaults[n], name);
    }
  }

  lemma NamesMore(defaults: seq<Header>, name: string)
    requires defaults != [] && GoodDefaults(defaults)
    ensures var n := |defaults| - 1;
            && (Names(defaults, name) <==> Names(defaults[..n], name) || defaults[n].name == name)
            && !(Names(defaults[..n], name) && defaults[n].name == name)
            && GoodDefaults(defaults[..n])
  {
    var n := |defaults| - 1;
    if i: nat :| i < n && defaults[..n][i].name == name {
      assert defaults[i].name == name;
    }
    if Names(defaults, name) {
      var i :| 0 <= i < |defaults| && defaults[i].name == name;
      assert i < n ==> defaults[..n][i].name == name;
    }
  }

  lemma {:induction false} DefaultPresent(headers: seq<Header>, defaults: seq<Header>, i: nat)
    requires i < |defaults| && !HasName(headers, defaults[i].name)
    ensures defaults[i] in WithDefaults(headers, defaults)
    decreases |defaults|
  {
    var n := |defaults| - 1;
    if i < n {
      DefaultPresent(headers, defaults[..n], i);
    }
  }

  lemma {:induction false} NothingMissing(headers: seq<Header>, defaults: seq<Header>)
    requires forall i :: 0 <= i < |defaults| ==> HasName(headers, defaults[i].name)
    ensures WithDefaults(headers, defaults) == headers
    decreases |defaults|
  {
    if defaults != [] {
      NothingMissing(headers, defaults[..|defaults| - 1]);
    }
  }

  lemma LowerFixed(s: string)
    requires forall i :: 0 <= i < |s| ==> !('A' <= s[i] <= 'Z')
    ensures Lower(s) == s
  {
  }

  lemma CorsNamesAreLower()
    ensures Lower(ALLOW_ORIGIN) == ALLOW_ORIGIN
    ensures Lower(ALLOW_CREDENTIALS) == ALLOW_CREDENTIALS
    ensures Lower(VARY) == VARY
  {
    LowerFixed(ALLOW_ORIGIN);
    LowerFixed(ALLOW_CREDENTIALS);
    LowerFixed(VARY);
  }

  lemma CorsNamesDiffer()
    ensures ALLOW_ORIGIN != ALLOW_CREDENTIALS && ALLOW_ORIGIN != VARY && ALLOW_CREDENTIALS != VARY
  {
    assert |ALLOW_ORIGIN| == 27 && |ALLOW_CREDENTIALS| == 32 && |VARY| == 4;
  }

  lemma CorsDefaultsAreGood(origin: string)
    ensures GoodDefaults(CorsDefaults(origin))
  {
    CorsNamesAreLower();
    CorsNamesDiffer();
  }

  /** What decoration does to a response, for each of the three names and every other. */
  lemma WithCorsMeaning(headers: seq<Header>, origin: string, name: string)
    ensures headers <= WithCors(headers, origin)
    ensures Named(WithCors(headers, origin), name)
            == if Names(CorsDefaults(origin), name) && !HasName(headers, name) then 1 else Named(headers, name)
    ensures Names(CorsDefaults(origin), name) ==> HasName(WithCors(headers, origin), name)
    ensures !HasName(headers, "access-control-allow-origin")
            ==> Header("access-control-allow-origin", origin) in WithCors(headers, origin)
    ensures !HasName(headers, "access-control-allow-credentials")
            ==> Header("access-control-allow-credentials", "true") in WithCors(headers, origin)
    ensures !HasName(headers, "vary") ==> Header("vary", "Origin") in WithCors(headers, origin)
  {
    CorsDefaultsAreGood(origin);
    DefaultsKeepHeaders(headers, CorsDefaults(origin));
    DefaultsCount(headers, CorsDefaults(origin), name);
    NamedMeaning(headers, name);
    NamedMeaning(WithCors(headers, origin), name);
    if !HasName(headers, ALLOW_ORIGIN) {
      DefaultPresent(headers, CorsDefaults(origin), 0);
    }
    if !HasName(headers, ALLOW_CREDENTIALS) {
      DefaultPresent(headers, CorsDefaults(origin), 1);
    }
    if !HasName(headers, VARY) {
      DefaultPresent(headers, CorsDefaults(origin), 2);
    }
  }

  /** Decorating a decorated response, for any origin, changes nothing. */
  lemma WithCorsIsIdempotent(headers: seq<Header>, origin: string, other: string)
    ensures WithCors(WithCors(headers, origin), other) == WithCors(headers, origin)
  {
    var d := CorsDefaults(other);
    forall i | 0 <= i < |d|
      ensures HasName(WithCors(headers, origin), d[i].name)
    {
      assert CorsDefaults(origin)[i].name == d[i].name;
      WithCorsMeaning(headers, origin, d[i].name);
    }
    NothingMissing(WithCors(headers, origin), d);
  }

  // ----- The wrapped app -----

  datatype Message = ResponseStart(status: int, headers: seq<Header>) | OtherMessage(text: string)

  datatype Scope = Scope(isHttp: bool, headers: seq<Header>)

  /** What the wrapped app does: the messages it sends, and whether it then raises. */
  datatype AppRun = AppRun(messages: seq<Message>, raises: bool)

  /** What leaves the wrapper, and whether the exception leaves it too. */
  datatype Result = Result(sent: seq<Message>, raised: bool)

  function OriginOf(headers: seq<Header>): Option<string> {
    if headers == [] then None
    else if headers[0].name == "origin" then Some(headers[0].value)
    else OriginOf(headers[1..])
  }

  function AllowOrigin(scope: Scope, allowed: set<string>): Option<string> {
    match OriginOf(scope.headers)
    case Some(o) => if scope.isHttp && o != "" && o in allowed then Some(o) else None
    case None => None
  }

  function Decorate(m: Message, origin: string): Message {
    if m.ResponseStart? then ResponseStart(m.status, WithCors(m.headers, origin)) else m
  }

  /**
   * The substitute for a response the app failed to give; the framework puts headers
   * of its own, about the content, behind the three given.
   */
  function Fallback(origin: string, content: seq<Header>): seq<Message> {
    [ResponseStart(500, CorsDefaults(origin) + content), OtherMessage("{\"detail\":\"Internal server error\"}")]
  }

  function DecorateAll(messages: seq<Message>, origin: string): (r: seq<Message>)
    ensures |r| == |messages|
  {
    seq(|messages|, i requires 0 <= i < |messages| => Decorate(messages[i], origin))
  }

  function Wrapped(scope: Scope, allowed: set<string>, content: seq<Header>, run: AppRun): Result {
    match AllowOrigin(scope, allowed)
    case Some(o) => Result(DecorateAll(run.messages, o) + if run.raises then Fallback(o, content) else [], false)
    case None => Result(run.messages, run.raises)
  }

  class OriginReflectMiddleware {
    const allowed: set<string>
    const content: seq<Header>
    var sent: seq<Message>

    constructor (allowedOrigins: seq<string>, content: seq<Header>)
      ensures allowed == (set o | o in allowedOrigins) && this.content == content && sent == []
    {
      allowed := set o | o in allowedOrigins;
      this.content := content;
      sent := [];
    }

    /** The replacement for `send` that the wrapped app is given. */
    method SendWithCors(allowOrigin: Option<string>, message: Message)
      modifies this
      ensures sent == old(sent) + [if allowOrigin.Some? then Decorate(message, allowOrigin.value) else message]
    {
      var m := message;
      if allowOrigin.Some? && message.ResponseStart? {
        var headers := AppendCorsHeaders(message.headers, allowOrigin.value);
        m := message.(headers := headers);
      }
      sent := sent + [m];
    }

    method Call(scope: Scope, run: AppRun) returns (raised: bool)
      modifies this
      ensures Result(sent, raised) == var w := Wrapped(scope, allowed, content, run); w.(sent := old(sent) + w.sent)
    {
      var allowOrigin := AllowOrigin(scope, allowed);
      ghost var expected := if allowOrigin.Some? then DecorateAll(run.messages, allowOrigin.value) else run.messages;
      var k := 0;
      while k < |run.messages|
        invariant 0 <= k <= |run.messages|
        invariant sent == old(sent) + expected[..k]
      {
        SendWithCors(allowOrigin, run.messages[k]);
        k := k + 1;
      }
      assert expected[..k] == expected;
      if run.raises {
        if allowOrigin.None? {
          return true;
        }
        sent := sent + Fallback(allowOrigin.value, content);
      }
      raised := false;
    }
  }

  function Starts(messages: seq<Message>): nat {
    if messages == [] then 0
    else Starts(messages[..|messages| - 1]) + if messages[|messages| - 1].ResponseStart? then 1 else 0
  }

  lemma {:induction false} StartsDecorated(messages: seq<Message>, origin: string)
    ensures Starts(DecorateAll(messages, origin)) == Starts(messages)
  {
    if messages != [] {
      var n := |messages| - 1;
      StartsDecorated(messages[..n], origin);
      assert DecorateAll(messages, origin)[..n] == DecorateAll(messages[..n], origin);
    }
  }

  lemma {:induction false} StartsAppend(a: seq<Message>, b: seq<Message>)
    ensures Starts(a + b) == Starts(a) + Starts(b)
  {
    if b == [] {
      assert a + b == a;
    } else {
      var n := |b| - 1;
      StartsAppend(a, b[..n]);
      assert (a + b)[..|a| + n] == a + b[..n];
    }
  }

  /**
   * For an allowed origin and whatever the app does: every response start carries
   * an allow-origin header, nothing is lost or reordered, the exception stays in,
   * and there is one start more than the app's own exactly when it raised.
   */
  lemma AllowedOriginIsServed(scope: Scope, allowed: set<string>, content: seq<Header>, run: AppRun)
    requires AllowOrigin(scope, allowed).Some?
    ensures var r := Wrapped(scope, allowed, content, run);
            && !r.raised
            && |r.sent| >= |run.messages|
            && (forall i :: 0 <= i < |r.sent| && r.sent[i].ResponseStart? ==> HasName(r.sent[i].headers, ALLOW_ORIGIN))
            && (forall i :: 0 <= i < |run.messages| ==>
                  (run.messages[i].OtherMessage? ==> r.sent[i] == run.messages[i]))
            && (forall i :: 0 <= i < |run.messages| && run.messages[i].ResponseStart? ==>
                  && r.sent[i].ResponseStart? && r.sent[i].status == run.messages[i].status
                  && run.messages[i].headers <= r.sent[i].headers)
            && Starts(r.sent) == Starts(run.messages) + if run.raises then 1 else 0
  {
    var o := AllowOrigin(scope, allowed).value;
    var r := Wrapped(scope, allowed, content, run);
    var tail := if run.raises then Fallback(o, content) else [];
    forall i | 0 <= i < |r.sent| && r.sent[i].ResponseStart?
      ensures HasName(r.sent[i].headers, ALLOW_ORIGIN)
    {
      if i < |run.messages| {
        assert r.sent[i] == Decorate(run.messages[i], o);
        StartIsServed(run.messages[i].headers, content, o);
      } else {
        assert r.sent[i] == tail[i - |run.messages|];
        StartIsServed([], content, o);
      }
    }
    forall i | 0 <= i < |run.messages| && run.messages[i].ResponseStart?
      ensures run.messages[i].headers <= r.sent[i].headers
    {
      WithCorsMeaning(run.messages[i].headers, o, ALLOW_ORIGIN);
    }
    StartsAppend(DecorateAll(run.messages, o), tail);
    StartsDecorated(run.messages, o);
    StartsOfFallback(o, content);
  }

  lemma StartIsServed(headers: seq<Header>, content: seq<Header>, origin: string)
    ensures HasName(WithCors(headers, origin), ALLOW_ORIGIN) && HasName(CorsDefaults(origin) + content, ALLOW_ORIGIN)
  {
    var d := CorsDefaults(origin) + content;
    CorsDefaultsAreGood(origin);
    assert d[0].name == ALLOW_ORIGIN && d[0] in d;
    WithCorsMeaning(headers, origin, ALLOW_ORIGIN);
  }

  lemma StartsOfFallback(origin: string, content: seq<Header>)
    ensures Starts(Fallback(origin, content)) == 1
  {
    var messages := Fallback(origin, content);
    StartsAppend([messages[0]], [messages[1]]);
    assert messages == [messages[0]] + [messages[1]];
    assert [messages[0]][..0] == [] && [messages[1]][..0] == [];
  }

  /** An app that raises before any start of its own still answers, once. */
  lemma RaisingAppAnswersOnce(scope: Scope, allowed: set<string>, content: seq<Header>, run: AppRun)
    requires AllowOrigin(scope, allowed).Some? && run.raises
    ensures Starts(Wrapped(scope, allowed, content, run).sent) == 1 <==> Starts(run.messages) == 0
  {
    AllowedOriginIsServed(scope, allowed, content, run);
  }

  // ----- Which origin is served -----

  /** Header number `k` is the first one named origin. */
  ghost predicate FirstOrigin(headers: seq<Header>, k: nat) {
    k < |headers| && headers[k].name == "origin" && forall j :: 0 <= j < k ==> headers[j].name != "origin"
  }

  lemma {:induction false} OriginOfMeaning(headers: seq<Header>)
    ensures OriginOf(headers).None? <==> forall j :: 0 <= j < |headers| ==> headers[j].name != "origin"
    ensures forall k: nat :: FirstOrigin(headers, k) ==> OriginOf(headers) == Some(headers[k].value)
    ensures OriginOf(headers).Some? ==> exists k: nat :: FirstOrigin(headers, k)
  {
    if headers != [] {
      OriginOfMeaning(headers[1..]);
      if headers[0].name == "origin" {
        assert FirstOrigin(headers, 0);
      } else {
        forall k: nat | FirstOrigin(headers, k)
          ensures k > 0 && FirstOrigin(headers[1..], k - 1)
        {
        }
        if OriginOf(headers).Some? {
          var k: nat :| FirstOrigin(headers[1..], k);
          assert FirstOrigin(headers, k + 1);
        }
      }
    }
  }

  /** Whether the request is served with CORS headers, in so many words. */
  ghost predicate Served(scope: Scope, allowed: set<string>, origin: string) {
    && scope.isHttp && origin != "" && origin in allowed
    && exists k: nat :: FirstOrigin(scope.headers, k) && scope.headers[k].value == origin
  }

  lemma AllowedIffServed(scope: Scope, allowed: set<string>, origin: string)
    ensures AllowOrigin(scope, allowed) == Some(origin) <==> Served(scope, allowed, origin)
  {
    OriginOfMeaning(scope.headers);
  }

  /**
   * The wrapper is transparent, whatever the app does, exactly when the request is
   * not http, or has no origin header, or its first one is empty or not allowed.
   */
  lemma TransparentIff(scope: Scope, allowed: set<string>, content: seq<Header>)
    ensures (forall run :: Wrapped(scope, allowed, content, run) == Result(run.messages, run.raises))
            <==> || !scope.isHttp
                 || (forall j :: 0 <= j < |scope.headers| ==> scope.headers[j].name != "origin")
                 || exists k: nat :: FirstOrigin(scope.headers, k)
                                     && (scope.headers[k].value == "" || scope.headers[k].value !in allowed)
  {
    OriginOfMeaning(scope.headers);
    if AllowOrigin(scope, allowed).Some? {
      assert !Wrapped(scope, allowed, content, AppRun([], true)).raised;
    }
  }

  /**
   * Otherwise every start -- the app's own and the substitute -- carries that very
   * origin in its allow-origin header, unless the app gave one of its own.
   */
  lemma ServedWithItsOrigin(scope: Scope, allowed: set<string>, content: seq<Header>, run: AppRun, origin: string, i: nat)
    requires Served(scope, allowed, origin)
    requires i < |Wrapped(scope, allowed, content, run).sent|
    ensures var m := Wrapped(scope, allowed, content, run).sent[i];
            m.ResponseStart? ==>
              || Header("access-control-allow-origin", origin) in m.headers
              || (i < |run.messages| && run.messages[i].ResponseStart?
                  && HasName(run.messages[i].headers, "access-control-allow-origin"))
    ensures i >= |run.messages| ==>
              run.raises && Wrapped(scope, allowed, content, run).sent[i]
                            == if i == |run.messages| then ResponseStart(500, CorsDefaults(origin) + content)
                               else OtherMessage("{\"detail\":\"Internal server error\"}")
  {
    AllowedIffServed(scope, allowed, origin);
    var r := Wrapped(scope, allowed, content, run);
    if i < |run.messages| {
      assert r.sent[i] == Decorate(run.messages[i], origin);
      if run.messages[i].ResponseStart? {
        WithCorsMeaning(run.messages[i].headers, origin, ALLOW_ORIGIN);
      }
    } else {
      var start := Fallback(origin, content)[0];
      assert start.headers[0] == Header(ALLOW_ORIGIN, origin);
    }
  }
}
