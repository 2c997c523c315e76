/** The site's two-language text tables and the language context: the
    current language, the lookup `t(key)` with its fallback to the key itself,
    the text direction, and the error raised outside a provider. */
module Translations {
  import opened Text

  datatype Language = En | He

  /** The `translations.en` table, in source order. */
  const EnTable: seq<(string, string)> := [
      ("nav.home", "Home"),
      ("nav.about", "About"),
      ("nav.portfolio", "Portfolio"),
      ("nav.schedule", "Schedule"),
      ("nav.contact", "Contact"),
      ("hero.book", "Book Appointment"),
      ("hero.portfolio", "View Portfolio"),
      ("about.title", "About StyleTime Studio"),
      ("about.location", "Location"),
      ("about.phone", "Phone"),
      ("about.email", "Email"),
      ("about.hours", "Work Hours"),
      ("about.visit", "Visit Our Studio"),
      ("portfolio.title", "Our Latest Works"),
      ("portfolio.view.slideshow", "Slideshow"),
      ("portfolio.view.grid", "Grid"),
      ("schedule.title", "Schedule Your Visit"),
      ("schedule.select.date", "Select Date"),
      ("schedule.select.time", "Select Time"),
      ("schedule.available.times", "Available Times for"),
      ("schedule.book", "Book Appointment"),
      ("schedule.success", "Appointment booked successfully!"),
      ("schedule.form.name", "Full Name"),
      ("schedule.form.phone", "Phone Number"),
      ("schedule.form.verification", "Verification Code"),
      ("schedule.form.verification.message", "A verification code has been sent to your phone"),
      ("schedule.form.send.code", "Send Verification Code"),
      ("schedule.form.verify", "Verify and Book"),
      ("contact.title", "Get in Touch"),
      ("contact.form.name", "Name"),
      ("contact.form.phone", "Phone"),
      ("contact.form.message", "Message"),
      ("contact.form.send", "Send Message"),
      ("contact.form.success", "Message sent successfully!"),
      ("footer.links", "Quick Links"),
      ("footer.services", "Services"),
      ("footer.follow", "Follow Us"),
      ("footer.rights", "All rights reserved."),
      ("footer.business.link", "Want this for your business? Click here")
  ]

  /** The `translations.he` table, in source order. */
  const HeTable: seq<(string, string)> := [
      ("nav.home", "בית"),
      ("nav.about", "אודות"),
      ("nav.portfolio", "תיק עבודות"),
      ("nav.schedule", "קביעת תור"),
      ("nav.contact", "צור קשר"),
      ("hero.book", "קבע תור"),
      ("hero.portfolio", "צפה בתיק העבודות"),
      ("about.title", "אודות סטייל טיים סטודיו"),
      ("about.location", "מיקום"),
      ("about.phone", "טלפון"),
      ("about.email", "אימייל"),
      ("about.hours", "שעות פעילות"),
      ("about.visit", "בקר בסטודיו שלנו"),
      ("portfolio.title", "העבודות האחרונות שלנו"),
      ("portfolio.view.slideshow", "מצגת"),
      ("portfolio.view.grid", "רשת"),
      ("schedule.title", "קבע את הביקור שלך"),
      ("schedule.select.date", "בחר תאריך"),
      ("schedule.select.time", "בחר שעה"),
      ("schedule.available.times", "שעות זמינות ל"),
      ("schedule.book", "קבע תור"),
      ("schedule.success", "התור נקבע בהצלחה!"),
      ("schedule.form.name", "שם מלא"),
      ("schedule.form.phone", "מספר טלפון"),
      ("schedule.form.verification", "קוד אימות"),
      ("schedule.form.verification.message", "קוד אימות נשלח למספר הטלפון שלך"),
      ("schedule.form.send.code", "שלח קוד אימות"),
      ("schedule.form.verify", "אמת וקבע תור"),
      ("contact.title", "צור קשר"),
      ("contact.form.name", "שם"),
      ("contact.form.phone", "טלפון"),
      ("contact.form.message", "הודעה"),
      ("contact.form.send", "שלח הודעה"),
      ("contact.form.success", "ההודעה נשלחה בהצלחה!"),
      ("footer.links", "קישורים מהירים"),
      ("footer.services", "שירותים"),
      ("footer.follow", "עקבו אחרינו"),
      ("footer.rights", "כל הזכויות שמורות."),
      ("footer.business.link", "רוצה כזה לעסק שלך? לחץ כאן")
  ]

  function Table(lang: Language): seq<(string, string)> {
    match lang
    case En => EnTable
    case He => HeTable
  }

  /** The keys of a table, in order. */
  function Keys(table: seq<(string, string)>): (ks: seq<string>)
    ensures |ks| == |table|
    ensures forall i :: 0 <= i < |table| ==> ks[i] == table[i].0
  {
    seq(|table|, i requires 0 <= i < |table| => table[i].0)
  }

  /** Property access on the table object: the entry stored under `key`. */
  function Lookup(table: seq<(string, string)>, key: string): (r: Option<string>)
    ensures r.None? <==> key !in Keys(table)
    ensures r.Some? ==> exists i :: 0 <= i < |table| && table[i] == (key, r.value)
  {
    if table == [] then None
    else if table[0].0 == key then Some(table[0].1)
    else
      assert Keys(table) == [table[0].0] + Keys(table[1..]);
      Lookup(table[1..], key)
  }

  /** `t(key)`: the entry of the current language's table, or the key itself
      when the entry is missing or empty (`|| key`). */
  function Translate(lang: Language, key: string): (r: string)
    ensures r == key || Lookup(Table(lang), key) == Some(r)
    ensures key != "" ==> r != ""
  {
    match Lookup(Table(lang), key)
    case Some(v) => if v != "" then v else key
    case None => key
  }

  /** A key the table lacks comes back unchanged; a key it has comes back as
      its (non-empty) entry. */
  lemma TranslateSpec(lang: Language, key: string)
    ensures key !in Keys(Table(lang)) ==> Translate(lang, key) == key
    ensures key in Keys(Table(lang)) ==>
      exists i :: 0 <= i < |Table(lang)| && Table(lang)[i] == (key, Translate(lang, key)) && Translate(lang, key) != ""
  {
    TablesNonEmpty();
  }

  /** Both tables define the same keys in the same order, so a key translates
      in one language exactly when it translates in the other. */
  lemma SameKeys()
    ensures Keys(EnTable) == Keys(HeTable)
    ensures forall key :: key in Keys(Table(En)) <==> key in Keys(Table(He))
  {
    assert |EnTable| == |HeTable|;
    forall i | 0 <= i < |EnTable|
      ensures EnTable[i].0 == HeTable[i].0
    {
    }
  }

  /** No entry of either table is empty, so the `|| key` fallback is taken only
      for missing keys. */
  lemma TablesNonEmpty()
    ensures forall i :: 0 <= i < |EnTable| ==> EnTable[i].1 != ""
    ensures forall i :: 0 <= i < |HeTable| ==> HeTable[i].1 != ""
  {
  }

  /** The `defaultLanguage` prop: Hebrew when none is given. */
  function InitialLanguage(defaultLanguage: Option<Language>): (l: Language)
    ensures defaultLanguage.None? ==> l == He
    ensures defaultLanguage.Some? ==> l == defaultLanguage.value
  {
    match defaultLanguage
    case None => He
    case Some(l) => l
  }

  /** The `dir` attribute of the provider's wrapper. */
  function Direction(lang: Language): (dir: string)
    ensures dir == "rtl" <==> lang == He
  {
    if lang == He then "rtl" else "ltr"
  }

  /** `LanguageProvider`: holds the current language. */
  class LanguageProvider {
    var language: Language

    constructor (defaultLanguage: Option<Language>)
      ensures language == InitialLanguage(defaultLanguage)
    {
      language := InitialLanguage(defaultLanguage);
    }

    /** `setLanguage`. */
    method SetLanguage(lang: Language)
      modifies this
      ensures language == lang
    {
      language := lang;
    }

    /** `t` bound to the current language. */
    function T(key: string): string
      reads this
    {
      Translate(language, key)
    }
  }

  const OutsideProviderError := "useLanguage must be used within a LanguageProvider"

  /** `useLanguage()`: the enclosing provider, or the error it throws when
      there is none. */
  function UseLanguage(context: Option<LanguageProvider>): (r: Result<LanguageProvider, string>)
    ensures context.None? <==> r == Err(OutsideProviderError)
    ensures context.Some? ==> r == Ok(context.value)
  {
    match context
    case None => Err(OutsideProviderError)
    case Some(p) => Ok(p)
  }
}
