/**
 * The locale controller (bundles/locale/controllers/locale.ts): the session
 * language map set by the `lang` socket call, the render hook that settles
 * the request language and builds the view's i18n object with its memoised
 * `t`, the socket hook's `t`, the middleware that copies the request language
 * onto the user, and the route that serves compiled locale files.
 */
module Controller {
  import opened Wrappers
  import opened Strings
  import opened Json
  import opened Catalog
  import opened Host
  import opened Compile
  import opened Entities
  import opened Helper
  import LocalesTs

  // ---------------------------------------------------------------------------
  // Sessions (locale.ts:86-92, 147-156)
  // ---------------------------------------------------------------------------

  /** `config.get('session.key') || 'eden.session.id'` */
  function SessionCookie(configured: Option<string>): (name: string)
    ensures name != ""
    ensures TruthyString(configured) ==> name == configured.value
  {
    OrDefault(configured, "eden.session.id")
  }

  /** A value used as an object key: a missing one is the key `"undefined"`. */
  function PropertyKey(v: Option<string>): string {
    if v.Some? then v.value else "undefined"
  }

  /** `cookie[name]` for the session cookie. */
  function SessionId(cookie: map<string, string>, sessionKey: Option<string>): Option<string> {
    var name := SessionCookie(sessionKey);
    if name in cookie then Some(cookie[name]) else None
  }

  /** `sessions[sessionID]` */
  function SessionLang(sessions: map<string, string>, id: Option<string>): Option<string> {
    var key := PropertyKey(id);
    if key in sessions then Some(sessions[key]) else None
  }

  /** `if (this.sessions[sessionID]) data.lng = this.sessions[sessionID]` */
  function SocketData(data: map<string, Json>, sessions: map<string, string>, cookie: map<string, string>, sessionKey: Option<string>)
    : map<string, Json>
  {
    var lang := SessionLang(sessions, SessionId(cookie, sessionKey));
    if TruthyString(lang) then data["lng" := Str(lang.value)] else data
  }

  /**
   * A language set by `lang` for the session named by the cookie reaches
   * the socket hook's data; the engine call still ignores it, because the
   * helper overwrites `lng`.
   */
  lemma LangReachesSocketData(sessions: map<string, string>, lang: string, cookie: map<string, string>, sessionKey: Option<string>,
                              data: map<string, Json>, userLang: Option<string>, fallbackLng: string)
    requires lang != ""
    requires SessionCookie(sessionKey) in cookie
    ensures var after := sessions[PropertyKey(Some(cookie[SessionCookie(sessionKey)])) := lang];
      && SocketData(data, after, cookie, sessionKey) == data["lng" := Str(lang)]
      && WithLng(SocketData(data, after, cookie, sessionKey), userLang, fallbackLng) == WithLng(data, userLang, fallbackLng)
  {
    IncomingLngIgnored(data, Str(lang), userLang, fallbackLng);
  }

  /** Whatever the sessions hold, the options the engine receives from a socket call are the same. */
  lemma SessionLanguageDiscarded(data: map<string, Json>, sessions: map<string, string>, cookie: map<string, string>,
                                 sessionKey: Option<string>, userLang: Option<string>, fallbackLng: string)
    ensures WithLng(SocketData(data, sessions, cookie, sessionKey), userLang, fallbackLng) == WithLng(data, userLang, fallbackLng)
  {
    var lang := SessionLang(sessions, SessionId(cookie, sessionKey));
    if TruthyString(lang) {
      IncomingLngIgnored(data, Str(lang.value), userLang, fallbackLng);
    }
  }

  // ---------------------------------------------------------------------------
  // The view's i18n object (locale.ts:101-120)
  // ---------------------------------------------------------------------------

  /** `req.language || config.get('i18n.fallbackLng')` */
  function EffectiveLanguage(language: Option<string>, fallbackLng: string): string {
    if TruthyString(language) then language.value else fallbackLng
  }

  /** The object the hook writes before merging the configuration over it. */
  function BaseI18n(lng: string, cacheConfig: Json, version: Json): Json {
    Obj(map[
      "lng" := Str(lng),
      "load" := Str("currentOnly"),
      "defaults" := EmptyObject,
      "backend" := Obj(map[
        "backends" := Arr([]),
        "backendOptions" := Arr([cacheConfig, Obj(map[
          "loadPath" := Str("/locales/{{ns}}.{{lng}}.json"),
          "queryStringParams" := Obj(map["v" := version]),
          "allowMultiLoading" := Bool(false)])])])])
  }

  /** `config.get('i18n') || {}` */
  function ConfigOrEmpty(configI18n: Json): (r: Json)
    ensures r != Null
  {
    if Truthy(configI18n) then configI18n else EmptyObject
  }

  /**
   * The i18n object built for a request whose settled language is
   * `language`. The merge cannot throw, because its later value is never
   * `null`.
   */
  function HookI18n(language: string, cacheConfig: Json, version: Json, configI18n: Json, arrays: ArrayMerge): Json {
    DeepMerge(BaseI18n(LastToken(language), cacheConfig, version), ConfigOrEmpty(configI18n), arrays).value
  }

  /**
   * The configuration does not set the key `key` at the top level: it is
   * falsy (so `{}` is merged), a number or boolean (which has no keys), or
   * an object without that key.
   */
  predicate ConfigLeavesOut(configI18n: Json, key: string) {
    !Truthy(configI18n) || configI18n.Bool? || configI18n.Num? || (configI18n.Obj? && key !in configI18n.fields)
  }

  /** Unless the configuration sets `lng`, the view's language is the last token of the request language. */
  lemma HookLngIsLastToken(language: string, cacheConfig: Json, version: Json, configI18n: Json, arrays: ArrayMerge)
    requires ConfigLeavesOut(configI18n, "lng")
    ensures Lookup(HookI18n(language, cacheConfig, version, configI18n, arrays), ["lng"]) == Some(Str(LastToken(language)))
    ensures ' ' !in language ==> Lookup(HookI18n(language, cacheConfig, version, configI18n, arrays), ["lng"]) == Some(Str(language))
  {
    var base := BaseI18n(LastToken(language), cacheConfig, version);
    assert Lookup(base, ["lng"]) == Some(Str(LastToken(language)));
    if ConfigOrEmpty(configI18n).Obj? {
      EarlierLeafSurvives(base, ConfigOrEmpty(configI18n), arrays, ["lng"]);
    } else {
      ScalarKeepsTarget(base, ConfigOrEmpty(configI18n), arrays);
    }
    if ' ' !in language {
      LastTokenPlain(language);
    }
  }

  /** A language set in the configuration overrides the request's. */
  lemma HookConfiguredLngWins(language: string, cacheConfig: Json, version: Json, configI18n: Json, arrays: ArrayMerge)
    requires configI18n.Obj? && "lng" in configI18n.fields && !Mergeable(configI18n.fields["lng"])
    ensures Lookup(HookI18n(language, cacheConfig, version, configI18n, arrays), ["lng"]) == Some(configI18n.fields["lng"])
  {
    assert Lookup(configI18n, ["lng"]) == Some(configI18n.fields["lng"]);
    LaterLeafWins(BaseI18n(LastToken(language), cacheConfig, version), configI18n, arrays, ["lng"]);
  }

  /** Unless the configuration brings its own `defaults`, the translation cache of a new i18n object is empty. */
  lemma HookDefaultsEmpty(language: string, cacheConfig: Json, version: Json, configI18n: Json, arrays: ArrayMerge)
    requires ConfigLeavesOut(configI18n, "defaults")
    ensures Lookup(HookI18n(language, cacheConfig, version, configI18n, arrays), ["defaults"]) == Some(EmptyObject)
  {
    var base := BaseI18n(LastToken(language), cacheConfig, version);
    assert Lookup(base, ["defaults"]) == Some(EmptyObject);
    if ConfigOrEmpty(configI18n).Obj? {
      EarlierLeafSurvives(base, ConfigOrEmpty(configI18n), arrays, ["defaults"]);
    } else {
      ScalarKeepsTarget(base, ConfigOrEmpty(configI18n), arrays);
    }
  }

  // ---------------------------------------------------------------------------
  // The memoised `t` of the view (locale.ts:123-135)
  // ---------------------------------------------------------------------------

  /** The i18n object holds a `defaults` object to cache translations in. */
  predicate HasDefaults(i18n: Json) {
    i18n.Obj? && "defaults" in i18n.fields && i18n.fields["defaults"].Obj?
  }

  function Defaults(i18n: Json): map<string, Json>
    requires HasDefaults(i18n)
  {
    i18n.fields["defaults"].fields
  }

  /** `render.i18n.defaults = d`: the other fields of the i18n object are kept. */
  function WithDefaults(i18n: Json, d: map<string, Json>): (r: Json)
    requires i18n.Obj?
    ensures HasDefaults(r) && Defaults(r) == d
    ensures forall k :: k != "defaults" ==> (k in r.fields <==> k in i18n.fields)
    ensures forall k :: k in i18n.fields && k != "defaults" ==> r.fields[k] == i18n.fields[k]
  {
    Obj(i18n.fields["defaults" := Obj(d)])
  }

  /** An entry that `t` reuses: present and truthy. */
  predicate Cached(d: map<string, Json>, key: string) {
    key in d && Truthy(d[key])
  }

  /** The cache and the engine calls made so far. */
  datatype Memo = Memo(defaults: map<string, Json>, invoked: seq<seq<Json>>)

  /**
   * One call `t(...args)`: a truthy cached entry is answered without calling
   * the engine; otherwise the engine's answer is stored. Either way the
   * answer is the stored entry.
   */
  function MemoT(m: Memo, args: seq<Json>, stringify: seq<Json> -> string, translate: seq<Json> -> string): (r: (Memo, Json))
    ensures stringify(args) in r.0.defaults && r.1 == r.0.defaults[stringify(args)]
    ensures Cached(m.defaults, stringify(args)) ==> r.0 == m
    ensures !Cached(m.defaults, stringify(args)) ==> r.0.invoked == m.invoked + [args]
    ensures !Cached(m.defaults, stringify(args)) ==> r.1 == Str(translate(args))
    ensures forall k :: k != stringify(args) ==> (k in r.0.defaults <==> k in m.defaults)
    ensures forall k :: k in m.defaults && k != stringify(args) ==> r.0.defaults[k] == m.defaults[k]
  {
    var key := stringify(args);
    if Cached(m.defaults, key) then (m, m.defaults[key])
    else
      var v := Str(translate(args));
      (Memo(m.defaults[key := v], m.invoked + [args]), v)
  }

  /** A run of calls, in order. */
  function MemoRun(m: Memo, calls: seq<seq<Json>>, stringify: seq<Json> -> string, translate: seq<Json> -> string): Memo
    decreases |calls|
  {
    if |calls| == 0 then m
    else MemoT(MemoRun(m, calls[..|calls| - 1], stringify, translate), calls[|calls| - 1], stringify, translate).0
  }

  /** A truthy entry is never replaced, whatever calls follow. */
  lemma {:induction false} CachedStable(m: Memo, calls: seq<seq<Json>>, stringify: seq<Json> -> string, translate: seq<Json> -> string, key: string)
    requires Cached(m.defaults, key)
    ensures Cached(MemoRun(m, calls, stringify, translate).defaults, key)
    ensures MemoRun(m, calls, stringify, translate).defaults[key] == m.defaults[key]
    decreases |calls|
  {
    if |calls| > 0 {
      CachedStable(m, calls[..|calls| - 1], stringify, translate, key);
    }
  }

  /** How often `x` occurs in `s`. */
  function CountOf(s: seq<seq<Json>>, x: seq<Json>): nat
    decreases |s|
  {
    if |s| == 0 then 0 else CountOf(s[..|s| - 1], x) + (if s[|s| - 1] == x then 1 else 0)
  }

  /** One call keeps a truthy entry for `key`, and a truthy answer for `args` is cached after a call with them. */
  lemma OnceStep(b: Memo, c: seq<Json>, args: seq<Json>, stringify: seq<Json> -> string, translate: seq<Json> -> string)
    requires translate(args) != ""
    ensures var r := MemoT(b, c, stringify, translate).0;
      && (Cached(b.defaults, stringify(c)) ==> r == b)
      && (!Cached(b.defaults, stringify(c)) ==> r.invoked == b.invoked + [c])
      && (Cached(b.defaults, stringify(args)) ==> Cached(r.defaults, stringify(args)))
      && (c == args ==> Cached(r.defaults, stringify(args)))
  {
    var key := stringify(args);
    var r := MemoT(b, c, stringify, translate).0;
    if Cached(b.defaults, key) && stringify(c) != key {
      assert key in r.defaults && r.defaults[key] == b.defaults[key];
    }
  }

  /** Appending `c` to calls that extend `m` appends it to the new ones. */
  lemma TailExtends(m: seq<seq<Json>>, b: seq<seq<Json>>, c: seq<Json>, x: seq<Json>)
    requires |m| <= |b| && b[..|m|] == m
    ensures (b + [c])[..|m|] == m
    ensures CountOf((b + [c])[|m|..], x) == CountOf(b[|m|..], x) + (if c == x then 1 else 0)
  {
    var t := b[|m|..];
    assert (b + [c])[|m|..] == t + [c];
    assert (t + [c])[..|t|] == t;
  }

  /**
   * Within any run of calls, other arguments mixed in, the engine is called
   * at most once for `args` when its answer is truthy, and not at all when
   * a truthy entry is already cached; after a call with `args` its entry is
   * cached. The engine calls of the run extend the earlier ones.
   */
  lemma {:induction false} AtMostOnce(m: Memo, calls: seq<seq<Json>>, args: seq<Json>, stringify: seq<Json> -> string, translate: seq<Json> -> string)
    requires translate(args) != ""
    ensures var r := MemoRun(m, calls, stringify, translate);
      && |m.invoked| <= |r.invoked| && r.invoked[..|m.invoked|] == m.invoked
      && CountOf(r.invoked[|m.invoked|..], args) <= 1
      && (CountOf(r.invoked[|m.invoked|..], args) == 1 ==> Cached(r.defaults, stringify(args)))
      && (Cached(m.defaults, stringify(args)) ==> CountOf(r.invoked[|m.invoked|..], args) == 0)
      && (args in calls ==> Cached(r.defaults, stringify(args)))
    decreases |calls|
  {
    if |calls| > 0 {
      var p, c := calls[..|calls| - 1], calls[|calls| - 1];
      AtMostOnce(m, p, args, stringify, translate);
      var before := MemoRun(m, p, stringify, translate);
      var r := MemoRun(m, calls, stringify, translate);
      assert r == MemoT(before, c, stringify, translate).0;
      OnceStep(before, c, args, stringify, translate);
      var key := stringify(args);
      if Cached(m.defaults, key) {
        CachedStable(m, p, stringify, translate, key);
      }
      if !Cached(before.defaults, stringify(c)) {
        TailExtends(m.invoked, before.invoked, c, args);
      }
      assert calls == p + [c];
    }
  }

  /** A falsy answer such as `""` is not reused: every repetition calls the engine again. */
  lemma {:induction false} EmptyRecomputed(m: Memo, calls: seq<seq<Json>>, args: seq<Json>, stringify: seq<Json> -> string, translate: seq<Json> -> string)
    requires forall i :: 0 <= i < |calls| ==> calls[i] == args
    requires translate(args) == "" && !Cached(m.defaults, stringify(args))
    ensures MemoRun(m, calls, stringify, translate).invoked == m.invoked + calls
    ensures !Cached(MemoRun(m, calls, stringify, translate).defaults, stringify(args))
    decreases |calls|
  {
    if |calls| > 0 {
      var p := calls[..|calls| - 1];
      EmptyRecomputed(m, p, args, stringify, translate);
      assert calls == p + [args];
    }
  }

  // ---------------------------------------------------------------------------
  // Syncing the user's language (locale.ts:172-193)
  // ---------------------------------------------------------------------------

  /** `!req.user.get('lang') || req.user.get('lang') !== req.language` */
  predicate NeedsSync(userLang: Option<string>, language: Option<string>) {
    !TruthyString(userLang) || userLang != language
  }

  /**
   * A composite tag is compared whole but stored as its last token, so the
   * next request with the same tag finds a mismatch again.
   */
  lemma CompositeTagAlwaysResyncs(language: string)
    requires ' ' in language
    ensures NeedsSync(Some(LastToken(language)), Some(language))
  {
    LastTokenHasNoSpace(language);
  }

  /** A plain non-empty tag, once stored, matches and causes no further writes. */
  lemma PlainTagSettles(language: string)
    requires language != "" && ' ' !in language
    ensures !NeedsSync(Some(LastToken(language)), Some(language))
  {
    LastTokenPlain(language);
  }

  /** How the middleware ends: `next()` is called, or the returned promise rejects. */
  datatype Outcome = Next | Rejected

  // ---------------------------------------------------------------------------
  // Serving compiled locale files (locale.ts:65-75)
  // ---------------------------------------------------------------------------

  /** `GET /locales/:ns.:lng.json`: the compiled file, or `{}` when loading it fails. */
  function ServeLocale(files: map<Path, Json>, appRoot: Path, ns: string, lng: string): Json {
    var path := LocalesTs.FrontendDir(appRoot) + [ns + "." + lng + ".json"];
    if path in files then files[path] else EmptyObject
  }

  /**
   * After the TypeScript task's pass, the route answers with the merged
   * document of every pair that occurred, and with `{}` for any other pair.
   */
  lemma ServesCompiled(before: map<Path, Json>, appRoot: Path, files: seq<Fragment>, defaultNS: string, arrays: ArrayMerge,
                       ns: string, lng: string)
    requires '.' !in lng
    requires BuildCatalog(files, defaultNS, arrays).Some?
    ensures var dir := LocalesTs.FrontendDir(appRoot);
      var after := Cleared(before, dir) + Written(dir, ThreadPlan(files, defaultNS, arrays));
      if Key(ns, lng) in KeysOf(files, defaultNS) then
        FoldMerge(ContentsFor(files, defaultNS, Key(ns, lng)), arrays) == Some(ServeLocale(after, appRoot, ns, lng))
      else ServeLocale(after, appRoot, ns, lng) == EmptyObject
  {
    var dir := LocalesTs.FrontendDir(appRoot);
    var after := Cleared(before, dir) + Written(dir, ThreadPlan(files, defaultNS, arrays));
    var k := Key(ns, lng);
    assert ns + "." + lng + ".json" == FileName(k);
    var path := dir + [FileName(k)];
    CompiledDirectory(before, dir, files, defaultNS, arrays);
    if k !in KeysOf(files, defaultNS) && path in after {
      assert dir <= path;
      assert path in (set k0 | k0 in KeysOf(files, defaultNS) :: dir + [FileName(k0)]);
      var k' :| k' in KeysOf(files, defaultNS) && path == dir + [FileName(k')];
      KeysOfLocalesHaveNoDot(files, defaultNS);
      assert FileName(k) == path[|dir|] == FileName(k');
      FileNameInjective(k, k');
    }
  }

  // ---------------------------------------------------------------------------
  // The objects the hooks work on
  // ---------------------------------------------------------------------------

  /** `req.i18n`, the request's engine handle: `t(...args)` is a function of the arguments. */
  class Translator {
    const translate: seq<Json> -> string
    var calls: seq<seq<Json>>

    constructor(translate: seq<Json> -> string)
      ensures this.translate == translate && calls == []
    {
      this.translate := translate;
      calls := [];
    }

    method T(args: seq<Json>) returns (r: string)
      modifies this
      ensures r == translate(args) && calls == old(calls) + [args]
    {
      r := translate(args);
      calls := calls + [args];
    }
  }

  class Request {
    /** `req.language`, as the language detector left it. */
    var language: Option<string>
    var user: User?
    const i18n: Translator

    constructor(language: Option<string>, user: User?, i18n: Translator)
      ensures this.language == language && this.user == user && this.i18n == i18n
    {
      this.language := language;
      this.user := user;
      this.i18n := i18n;
    }
  }

  /** The render state the view hook works on: `render.i18n`, `null` standing for a missing one. */
  class Render {
    var i18n: Json

    constructor(i18n: Json)
      ensures this.i18n == i18n
    {
      this.i18n := i18n;
    }
  }

  /** The options of a socket call: the request's cookies and the calling user. */
  datatype SocketOpts = SocketOpts(cookie: map<string, string>, user: User?)

  class LocaleController {
    /** Session id to the language chosen with `lang`. */
    var sessions: map<string, string>
    /** `config.get('i18n.fallbackLng')` */
    const fallbackLng: string
    /** `config.get('session.key')` */
    const sessionKey: Option<string>
    /** `config.get('i18n.cache')`, `config.get('version')` and `config.get('i18n')` */
    const cacheConfig: Json
    const version: Json
    const configI18n: Json
    /** The merge's array strategy. */
    const arrays: ArrayMerge
    /** `JSON.stringify` of an argument list. */
    const stringify: seq<Json> -> string
    /** The locale helper. */
    const helper: LocaleHelper

    constructor(helper: LocaleHelper, sessionKey: Option<string>, cacheConfig: Json, version: Json, configI18n: Json,
                arrays: ArrayMerge, stringify: seq<Json> -> string)
      ensures sessions == map[] && fallbackLng == helper.fallbackLng && this.helper == helper
      ensures this.sessionKey == sessionKey && this.cacheConfig == cacheConfig && this.version == version
      ensures this.configI18n == configI18n && this.arrays == arrays && this.stringify == stringify
    {
      sessions := map[];
      fallbackLng := helper.fallbackLng;
      this.helper := helper;
      this.sessionKey := sessionKey;
      this.cacheConfig := cacheConfig;
      this.version := version;
      this.configI18n := configI18n;
      this.arrays := arrays;
      this.stringify := stringify;
    }

    /** `langAction(lang, opts)`: the session's entry becomes `lang`; no other entry changes. */
    method LangAction(lang: string, sessionID: Option<string>)
      modifies this
      ensures sessions == old(sessions)[PropertyKey(sessionID) := lang]
      ensures forall s :: s != PropertyKey(sessionID) ==> (s in sessions <==> s in old(sessions))
      ensures forall s :: s in old(sessions) && s != PropertyKey(sessionID) ==> sessions[s] == old(sessions)[s]
    {
      sessions := sessions[PropertyKey(sessionID) := lang];
    }

    /**
     * `renderHook`: the request language is settled (a falsy one becomes the
     * fallback), and the view's i18n object is built only when absent.
     */
    method RenderHook(req: Request, render: Render)
      modifies req, render
      ensures req.language == Some(EffectiveLanguage(old(req.language), fallbackLng))
      ensures TruthyString(old(req.language)) ==> req.language == old(req.language)
      ensures req.user == old(req.user)
      ensures Truthy(old(render.i18n)) ==> render.i18n == old(render.i18n)
      ensures !Truthy(old(render.i18n)) ==>
        render.i18n == HookI18n(req.language.value, cacheConfig, version, configI18n, arrays)
    {
      req.language := Some(EffectiveLanguage(req.language, fallbackLng));
      if !Truthy(render.i18n) {
        var language := req.language.value;
        var built := DeepMerge(BaseI18n(LastToken(language), cacheConfig, version), ConfigOrEmpty(configI18n), arrays);
        render.i18n := built.value;
      }
    }

    /** The view's `t(...args)`, memoised in `render.i18n.defaults`. */
    method RenderT(render: Render, req: Request, args: seq<Json>) returns (r: Json)
      requires HasDefaults(render.i18n)
      modifies render, req.i18n
      ensures var step := MemoT(Memo(Defaults(old(render.i18n)), old(req.i18n.calls)), args, stringify, req.i18n.translate);
        && render.i18n == WithDefaults(old(render.i18n), step.0.defaults)
        && req.i18n.calls == step.0.invoked
        && r == step.1
    {
      var i18n := render.i18n;
      var defaults := Defaults(i18n);
      var key := stringify(args);
      if !(key in defaults && Truthy(defaults[key])) {
        var v := req.i18n.T(args);
        defaults := defaults[key := Str(v)];
        render.i18n := WithDefaults(i18n, defaults);
      } else {
        assert i18n.fields["defaults" := Obj(defaults)] == i18n.fields;
      }
      r := defaults[key];
    }

    /**
     * The socket hook's `t(str, data)`: a missing `data` becomes `{}`, the
     * session's language goes into `data.lng`, and the helper translates.
     */
    method SocketT(opts: SocketOpts, str: string, data: JsObject?) returns (r: string, used: JsObject, ghost sent: map<string, Json>)
      modifies helper.locale, data
      ensures data != null ==> used == data
      ensures data == null ==> fresh(used)
      ensures sent == SocketData(if data != null then old(data.fields) else map[], sessions, opts.cookie, sessionKey)
      ensures used.fields == WithLng(sent, UserLang(opts.user), helper.fallbackLng)
      ensures used.fields == WithLng(if data != null then old(data.fields) else map[], UserLang(opts.user), helper.fallbackLng)
      ensures r == helper.locale.translate(str, used.fields)
      ensures helper.locale.calls == old(helper.locale.calls) + [(str, used.fields)]
    {
      var d: JsObject;
      if data != null {
        d := data;
      } else {
        d := new JsObject(map[]);
      }
      ghost var base := d.fields;
      var sessionID := SessionId(opts.cookie, sessionKey);
      var key := PropertyKey(sessionID);
      if key in sessions && sessions[key] != "" {
        d.Set("lng", Str(sessions[key]));
      }
      sent := d.fields;
      assert sent == SocketData(base, sessions, opts.cookie, sessionKey);
      SessionLanguageDiscarded(base, sessions, opts.cookie, sessionKey, UserLang(opts.user), helper.fallbackLng);
      r, used := helper.T(opts.user, str, d);
    }

    /**
     * `middlewareAction`: without a user nothing happens; on a mismatch the
     * user is locked, given the last token of the request language, saved,
     * and unlocked only when the save succeeds.
     */
    method MiddlewareAction(req: Request, saveSucceeds: bool) returns (out: Outcome)
      modifies req.user
      ensures req.user == old(req.user) && req.language == old(req.language)
      ensures req.user == null ==> out == Next
      ensures req.user != null && !NeedsSync(old(req.user.lang), req.language) ==>
        out == Next && req.user.lang == old(req.user.lang) && req.user.journal == old(req.user.journal)
      ensures req.user != null && NeedsSync(old(req.user.lang), req.language) && req.language.None? ==>
        out == Rejected && req.user.lang == old(req.user.lang) && req.user.journal == old(req.user.journal) + [UserOp.Lock]
      ensures req.user != null && NeedsSync(old(req.user.lang), req.language) && req.language.Some? ==>
        && req.user.lang == Some(LastToken(req.language.value))
        && req.user.journal == old(req.user.journal) + [UserOp.Lock, UserOp.SetLang(LastToken(req.language.value)), UserOp.Save]
             + (if saveSucceeds then [UserOp.Unlock] else [])
        && out == (if saveSucceeds then Next else Rejected)
    {
      var user := req.user;
      if user == null {
        return Next;
      }
      if !TruthyString(user.lang) || user.lang != req.language {
        user.Lock();
        if req.language.None? {
          // `req.language.split` throws: the promise rejects with the user still locked
          return Rejected;
        }
        var language := req.language.value;
        user.SetLang(LastToken(language));
        var ok := user.Save(saveSucceeds);
        if !ok {
          return Rejected;
        }
        user.Unlock();
      }
      return Next;
    }
  }
}
