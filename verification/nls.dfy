/**
 * The localisation registry of the jadx GUI (class `NLS`): a fixed list of
 * supported locales whose first entry is the fallback, one message table per
 * locale, the host's locale, and the pair (current locale, cached table)
 * that `setLocale` switches.
 */
module Nls {
  import opened Wrappers

  /** A language plus a country code, compared structurally. */
  datatype LangLocale = LangLocale(language: string, country: string)

  /** A parsed message bundle: message key to translated text. */
  type Table = map<string, string>

  /** What `ResourceBundle.getString` throws for an absent key. */
  datatype MissingResource = MissingResource(key: string)

  /** What loading a locale's bundle throws when the bundle cannot be found or read. */
  datatype LoadError = ResourceNotFound(locale: LangLocale)

  const EnUS := LangLocale("en", "US")
  const ZhCN := LangLocale("zh", "CN")
  const EsES := LangLocale("es", "ES")

  /** The hard-coded supported locales, in order; index 0 is the fallback. */
  const SupportedLocales: seq<LangLocale> := [EnUS, ZhCN, EsES]

  /** `ResourceBundle.getString`: the key's text, or MissingResource. */
  function GetString(table: Table, key: string): (r: Result<string, MissingResource>)
    ensures r.Ok? <==> key in table
    ensures r.Ok? ==> r.value == table[key]
    ensures r.Err? ==> r.error == MissingResource(key)
  {
    if key in table then Ok(table[key]) else Err(MissingResource(key))
  }

  /**
   * The start-up loop that loads every listed locale, in order, into a fresh
   * map. The first locale the provider has no bundle for aborts the loop.
   */
  method LoadAll(locales: seq<LangLocale>, provider: map<LangLocale, Table>)
    returns (r: Result<map<LangLocale, Table>, LoadError>)
    ensures r.Ok? <==> forall i | 0 <= i < |locales| :: locales[i] in provider
    ensures r.Ok? ==> forall l :: l in r.value <==> l in locales
    ensures r.Ok? ==> forall l | l in r.value :: l in provider && r.value[l] == provider[l]
    ensures r.Err? ==> exists i | 0 <= i < |locales| ::
      && locales[i] == r.error.locale
      && locales[i] !in provider
      && forall j | 0 <= j < i :: locales[j] in provider
  {
    var loaded: map<LangLocale, Table> := map[];
    var i := 0;
    while i < |locales|
      invariant 0 <= i <= |locales|
      invariant forall j | 0 <= j < i :: locales[j] in provider
      invariant forall l :: l in loaded <==> l in locales[..i]
      invariant forall l | l in loaded :: l in provider && loaded[l] == provider[l]
    {
      var locale := locales[i];
      if locale !in provider {
        return Err(ResourceNotFound(locale));
      }
      loaded := loaded[locale := provider[locale]];
      i := i + 1;
    }
    assert locales[..i] == locales;
    return Ok(loaded);
  }

  class Registry {
    /** The supported locales; index 0 is the fallback. */
    const locales: seq<LangLocale>
    /** The loaded table of every supported locale. */
    const messages: map<LangLocale, Table>
    /** The table of `locales[0]`, consulted when a key is missing elsewhere. */
    const fallback: Table
    /** The host's locale, fixed at start-up. */
    const host: LangLocale

    /** The table of the active locale, cached so a lookup needs one map access. */
    var localized: Table
    /** The locale last chosen by SetLocale; None until SetLocale is first called. */
    var current: Option<LangLocale>

    /** The start-up state, which never changes afterwards. */
    ghost predicate Loaded() {
      && locales == SupportedLocales
      && (forall l :: l in messages <==> l in locales)
      && fallback == messages[locales[0]]
    }

    /** The start-up state, and the cached table belongs to the active locale. */
    ghost predicate Valid()
      reads this
    {
      && Loaded()
      && (current.Some? ==> current.value in messages)
      && localized == messages[current.GetOr(locales[0])]
    }

    /**
     * Start-up: load the table of every supported locale from `provider`
     * and make the fallback table active, leaving the current locale unset.
     */
    constructor (hostLocale: LangLocale, provider: map<LangLocale, Table>)
      requires forall i | 0 <= i < |SupportedLocales| :: SupportedLocales[i] in provider
      ensures Valid()
      ensures locales == SupportedLocales && locales[0] == EnUS
      ensures host == hostLocale
      ensures forall l | l in messages :: l in provider && messages[l] == provider[l]
      ensures fallback == provider[EnUS]
      ensures current == None && localized == fallback
    {
      host := hostLocale;
      locales := SupportedLocales;
      var loaded := LoadAll(SupportedLocales, provider);
      assert loaded.Ok?;
      messages := loaded.value;
      fallback := loaded.value[SupportedLocales[0]];
      localized := loaded.value[SupportedLocales[0]];
      current := None;
    }

    /** `str(key)`: the active table's text, else the fallback table's. */
    function Str(key: string): (r: Result<string, MissingResource>)
      reads this
      ensures key in localized ==> r == Ok(localized[key])
      ensures key !in localized && key in fallback ==> r == Ok(fallback[key])
      ensures r.Err? <==> key !in localized && key !in fallback
      ensures r.Err? ==> r.error == MissingResource(key)
    {
      match GetString(localized, key)
      case Ok(text) => Ok(text)
      case Err(_) => GetString(fallback, key)
    }

    /**
     * `str(key, locale)`: the text in that locale's table when the locale is
     * loaded and has the key, else the fallback table's. It reads no mutable
     * field, so the active locale cannot influence it.
     */
    function StrIn(key: string, locale: LangLocale): (r: Result<string, MissingResource>)
      ensures locale in messages && key in messages[locale] ==> r == Ok(messages[locale][key])
      ensures (locale !in messages || key !in messages[locale]) && key in fallback ==> r == Ok(fallback[key])
      ensures r.Err? <==> (locale !in messages || key !in messages[locale]) && key !in fallback
      ensures r.Err? ==> r.error == MissingResource(key)
    {
      if locale in messages then
        match GetString(messages[locale], key)
        case Ok(text) => Ok(text)
        case Err(_) => GetString(fallback, key)
      else
        GetString(fallback, key)
    }

    /** The locale SetLocale makes current: the requested one if loaded, else the fallback. */
    function Resolve(locale: LangLocale): (r: LangLocale)
      requires Loaded()
      ensures r in messages && r in locales
      ensures r == locale <==> locale in messages
      ensures locale !in messages ==> r == EnUS
    {
      if locale in messages then locale else locales[0]
    }

    /** `setLocale`: make `locale` active if it is loaded, the fallback otherwise. */
    method SetLocale(locale: LangLocale)
      requires Valid()
      modifies this
      ensures Valid()
      ensures current == Some(Resolve(locale))
      ensures localized == messages[Resolve(locale)]
    {
      if locale in messages {
        current := Some(locale);
      } else {
        current := Some(locales[0]);
      }
      localized := messages[current.value];
    }

    /** `getI18nLocales`: the supported list, fallback first, every entry loaded. */
    function I18nLocales(): (r: seq<LangLocale>)
      requires Loaded()
      ensures |r| == 3 && r[0] == EnUS
      ensures forall i | 0 <= i < |r| :: r[i] in messages
      ensures forall l :: l in messages <==> l in r
      ensures messages[r[0]] == fallback
    {
      locales
    }

    /** `currentLocale`: the locale last set, None before any SetLocale. */
    function CurrentLocale(): (r: Option<LangLocale>)
      reads this
      requires Valid()
      ensures r.Some? ==> r.value in messages && localized == messages[r.value]
      ensures r.None? ==> localized == fallback
    {
      current
    }

    /** `defaultLocale`: the host locale if it is loaded, the fallback otherwise. */
    function DefaultLocale(): (r: LangLocale)
      requires Loaded()
      ensures r in messages && r in locales
      ensures host in messages ==> r == host
      ensures host !in messages ==> r == EnUS
    {
      if host in messages then host else locales[0]
    }
  }

  /** `str(key)` agrees with `str(key, l)` for the active locale l (the fallback while unset). */
  lemma StrIsStrInActiveLocale(reg: Registry, key: string)
    requires reg.Valid()
    ensures reg.Str(key) == reg.StrIn(key, reg.CurrentLocale().GetOr(EnUS))
  {
  }

  /** Before any SetLocale, `str(key)` is exactly the fallback table's lookup. */
  lemma UnsetLocaleReadsFallback(reg: Registry, key: string)
    requires reg.Valid() && reg.CurrentLocale() == None
    ensures reg.Str(key) == GetString(reg.fallback, key)
    ensures reg.Str(key) == reg.StrIn(key, EnUS)
  {
  }

  /** Either form of `str` fails only for a key missing from the fallback table. */
  lemma FallbackKeyAlwaysResolves(reg: Registry, key: string, locale: LangLocale)
    ensures reg.Str(key).Err? ==> key !in reg.fallback
    ensures reg.StrIn(key, locale).Err? ==> key !in reg.fallback
    ensures key in reg.fallback ==> reg.Str(key).Ok? && reg.StrIn(key, locale).Ok?
  {
  }

  /** Re-selecting the current locale selects it again: SetLocale is idempotent. */
  lemma ResolveIdempotent(reg: Registry, locale: LangLocale)
    requires reg.Loaded()
    ensures reg.Resolve(reg.Resolve(locale)) == reg.Resolve(locale)
  {
  }

  /** The default locale is supported, so selecting it makes it current unchanged. */
  lemma DefaultLocaleIsSelectable(reg: Registry)
    requires reg.Loaded()
    ensures reg.Resolve(reg.DefaultLocale()) == reg.DefaultLocale()
    ensures reg.DefaultLocale() == reg.Resolve(reg.host)
  {
  }

  /**
   * Two SetLocale calls with the same argument leave the same state as one,
   * and the lists, tables and host locale are untouched by either.
   */
  method SetLocaleTwice(reg: Registry, locale: LangLocale)
    requires reg.Valid()
    modifies reg
    ensures reg.Valid()
    ensures reg.CurrentLocale() == Some(reg.Resolve(locale))
    ensures reg.localized == reg.messages[reg.Resolve(locale)]
  {
    reg.SetLocale(locale);
    ghost var once := (reg.current, reg.localized);
    reg.SetLocale(locale);
    assert (reg.current, reg.localized) == once;
  }

  /**
   * The worked example: only en_US knows "greeting"; after selecting zh_CN the
   * lookup falls back, and an unloaded locale falls back without failing.
   */
  method GreetingScenario()
  {
    var en: Table := map["greeting" := "Hello"];
    var empty: Table := map[];
    var reg := new Registry(LangLocale("fr", "FR"), map[EnUS := en, ZhCN := empty, EsES := empty]);
    assert reg.DefaultLocale() == EnUS;
    reg.SetLocale(ZhCN);
    assert reg.CurrentLocale() == Some(ZhCN);
    assert reg.Str("greeting") == Ok("Hello");
    assert reg.StrIn("greeting", LangLocale("fr", "FR")) == Ok("Hello");
    assert reg.Str("farewell") == Err(MissingResource("farewell"));
    reg.SetLocale(LangLocale("fr", "FR"));
    assert reg.CurrentLocale() == Some(EnUS);
  }
}
