/** The header button that switches between English and Hebrew. */
module LanguageSwitcher {
  import opened Translations

  /** The language a click switches to. */
  function Toggled(lang: Language): (r: Language)
    ensures r != lang
  {
    if lang == En then He else En
  }

  /** The short name each language is announced by on the button. */
  function ShortName(lang: Language): string {
    match lang
    case He => "עב"
    case En => "EN"
  }

  /** The button's label: `'עב'` while English is shown, `'EN'` while Hebrew is. */
  function Label(lang: Language): (s: string)
    ensures s == ShortName(Toggled(lang))
  {
    if lang == En then "עב" else "EN"
  }

  /** Two clicks restore the language, and the label always names the language
      the next click selects. */
  lemma ToggleTwice(lang: Language)
    ensures Toggled(Toggled(lang)) == lang
    ensures Label(Toggled(lang)) == ShortName(lang)
  {
  }

  /** A click on the button: the provider's language becomes the other one. */
  method Click(provider: LanguageProvider)
    modifies provider
    ensures provider.language == Toggled(old(provider.language))
    ensures old(provider.language) == En ==> provider.language == He
    ensures old(provider.language) == He ==> provider.language == En
  {
    var next := if provider.language == En then He else En;
    provider.SetLanguage(next);
  }
}
