/**
 * The locale helper (bundles/locale/helpers/locale.ts): `t` chooses the
 * language of a server-side translation and hands the call to the i18next
 * engine; `build` derives the i18n configuration from the compiled manifest.
 * The engine itself is an uninterpreted translation function.
 */
module Helper {
  import opened Wrappers
  import opened Json
  import opened Catalog
  import opened Entities

  /** The i18next instance: `t(str, opts)` is a function of its arguments; calls are recorded. */
  class I18next {
    const translate: (string, map<string, Json>) -> string
    var calls: seq<(string, map<string, Json>)>

    constructor(translate: (string, map<string, Json>) -> string)
      ensures this.translate == translate && calls == []
    {
      this.translate := translate;
      calls := [];
    }

    method T(str: string, opts: map<string, Json>) returns (r: string)
      modifies this
      ensures r == translate(str, opts) && calls == old(calls) + [(str, opts)]
    {
      r := translate(str, opts);
      calls := calls + [(str, opts)];
    }
  }

  /** `User.get('lang')` when a user is given; nothing otherwise. */
  function UserLang(user: User?): Option<string>
    reads user
  {
    if user == null then None else user.lang
  }

  /** `opts.lang || (User ? (User.get('lang') || fallbackLng) : fallbackLng)` */
  function ChooseLng(opts: map<string, Json>, userLang: Option<string>, fallbackLng: string): Json {
    if "lang" in opts && Truthy(opts["lang"]) then opts["lang"]
    else if TruthyString(userLang) then Str(userLang.value)
    else Str(fallbackLng)
  }

  /**
   * The options `t` hands to the engine: only `lng` changes, and it is the
   * first truthy one of the options' own `lang`, the user's language and the
   * fallback language.
   */
  function WithLng(opts: map<string, Json>, userLang: Option<string>, fallbackLng: string): (r: map<string, Json>)
    ensures r.Keys == opts.Keys + {"lng"}
    ensures forall k :: k in opts && k != "lng" ==> r[k] == opts[k]
    ensures "lang" in opts && Truthy(opts["lang"]) ==> r["lng"] == opts["lang"]
    ensures !("lang" in opts && Truthy(opts["lang"])) && TruthyString(userLang) ==> r["lng"] == Str(userLang.value)
    ensures !("lang" in opts && Truthy(opts["lang"])) && !TruthyString(userLang) ==> r["lng"] == Str(fallbackLng)
  {
    opts["lng" := ChooseLng(opts, userLang, fallbackLng)]
  }

  /**
   * Whatever `lng` the caller put into the options is overwritten: the
   * result does not depend on it. This is how the session language the
   * socket hook stores in `data.lng` is lost.
   */
  lemma IncomingLngIgnored(opts: map<string, Json>, incoming: Json, userLang: Option<string>, fallbackLng: string)
    ensures WithLng(opts["lng" := incoming], userLang, fallbackLng) == WithLng(opts, userLang, fallbackLng)
  {
    var a, b := WithLng(opts["lng" := incoming], userLang, fallbackLng), WithLng(opts, userLang, fallbackLng);
    assert a.Keys == b.Keys;
    forall k | k in a ensures a[k] == b[k] {
      if k != "lng" {
        assert a[k] == opts[k];
      }
    }
  }

  /** With a non-empty fallback the engine always receives a truthy language. */
  lemma LngAlwaysSet(opts: map<string, Json>, userLang: Option<string>, fallbackLng: string)
    requires fallbackLng != ""
    ensures Truthy(WithLng(opts, userLang, fallbackLng)["lng"])
  {
  }

  /** Choosing the language twice changes nothing more. */
  lemma WithLngIdempotent(opts: map<string, Json>, userLang: Option<string>, fallbackLng: string)
    ensures WithLng(WithLng(opts, userLang, fallbackLng), userLang, fallbackLng) == WithLng(opts, userLang, fallbackLng)
  {
    var once := WithLng(opts, userLang, fallbackLng);
    IncomingLngIgnored(opts, once["lng"], userLang, fallbackLng);
    assert opts["lng" := once["lng"]] == once;
  }

  /** The part of the i18n configuration `build` derives. */
  datatype I18nConfig = I18nConfig(
    ns: seq<string>,
    lngs: seq<string>,
    whitelist: Option<seq<string>>,
    versions: map<string, string>,
    others: map<string, Json>)

  /**
   * `build()`, on the configuration as a value: namespaces from the manifest,
   * languages from the (misspelt) `i19n.lngs` setting or else the manifest,
   * the whitelist equal to the languages, and one cache version per language.
   */
  method Build(prior: I18nConfig, compiled: Manifest, i19nLngs: Option<seq<string>>, version: string)
    returns (config: I18nConfig)
    ensures config.ns == compiled.namespaces
    ensures config.lngs == if i19nLngs.Some? then i19nLngs.value else compiled.locales
    ensures config.whitelist == Some(config.lngs)
    ensures config.versions.Keys == set l | l in config.lngs
    ensures forall l :: l in config.versions ==> config.versions[l] == version
    ensures config.others == prior.others
  {
    config := prior.(ns := compiled.namespaces);
    config := config.(lngs := if i19nLngs.Some? then i19nLngs.value else compiled.locales);
    config := config.(versions := map[]);
    // the guard `if (config.get('i18n.lngs'))` holds: the value is an array, and every array is truthy
    config := config.(whitelist := Some(config.lngs));
    for i := 0 to |config.lngs|
      invariant config.ns == compiled.namespaces
      invariant config.lngs == if i19nLngs.Some? then i19nLngs.value else compiled.locales
      invariant config.whitelist == Some(config.lngs)
      invariant config.versions.Keys == set l | l in config.lngs[..i]
      invariant forall l :: l in config.versions ==> config.versions[l] == version
      invariant config.others == prior.others
    {
      assert config.lngs[..i + 1] == config.lngs[..i] + [config.lngs[i]];
      config := config.(versions := config.versions[config.lngs[i] := version]);
    }
    assert config.lngs[..|config.lngs|] == config.lngs;
  }

  class LocaleHelper {
    /** `config.get('i18n.fallbackLng')` */
    const fallbackLng: string
    /** The engine `build` initialised. */
    const locale: I18next

    constructor(fallbackLng: string, locale: I18next)
      ensures this.fallbackLng == fallbackLng && this.locale == locale
    {
      this.fallbackLng := fallbackLng;
      this.locale := locale;
    }

    /**
     * `t(User, str, opts)`: a missing `opts` becomes a fresh `{}`; its `lng`
     * is set by precedence and the engine is called with it.
     */
    method T(user: User?, str: string, opts: JsObject?) returns (r: string, used: JsObject)
      modifies locale, opts
      ensures opts != null ==> used == opts && used.fields == WithLng(old(opts.fields), UserLang(user), fallbackLng)
      ensures opts == null ==> fresh(used) && used.fields == WithLng(map[], UserLang(user), fallbackLng)
      ensures r == locale.translate(str, used.fields)
      ensures locale.calls == old(locale.calls) + [(str, used.fields)]
    {
      if opts != null {
        used := opts;
      } else {
        used := new JsObject(map[]);
      }
      used.Set("lng", ChooseLng(used.fields, UserLang(user), fallbackLng));
      r := locale.T(str, used.fields);
    }
  }
}
