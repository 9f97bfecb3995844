/**
 * The external translation call. Each call takes one text with the source and
 * destination language codes and either returns the translated text or raises;
 * `None` stands for the raise.
 */
module TextTranslation {
  import opened Wrappers

  /** `Translator().translate(text, src=..., dest=...).text`, or `None` when that raises. */
  type Provider = (string, string, string) -> Option<string>

  /** The provider together with the language pair fixed for one run. */
  datatype Service = Service(provider: Provider, srcLang: string, destLang: string)
  {
    /** What one text becomes: the provider's translation, or the text itself when the call raised. */
    function Translate(text: string): (result: string)
      ensures provider(text, srcLang, destLang).Some? ==> result == provider(text, srcLang, destLang).value
      ensures provider(text, srcLang, destLang).None? ==> result == text
    {
      match provider(text, srcLang, destLang)
      case Some(translation) => translation
      case None => text
    }
  }

}
