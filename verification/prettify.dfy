/** The decision logic of `prettify_code`. The formatters themselves (the
    `black` process and the jsbeautifier functions) are a parameter that
    returns the formatted text, or None when the call raised. */
module Prettify {
  import opened Wrappers
  import opened Text
  import Editor

  datatype Formatter = Black | JsBeautify | HtmlBeautify | CssBeautify

  /** The formatter each language gets: `black` for python, jsbeautifier for
      javascript, html and css, none for the rest. */
  function FormatterFor(language: string): (r: Option<Formatter>)
    ensures r.Some? <==> language in ["python", "javascript", "html", "css"]
    ensures r == Some(Black) <==> language == "python"
    ensures r == Some(JsBeautify) <==> language == "javascript"
    ensures r == Some(HtmlBeautify) <==> language == "html"
    ensures r == Some(CssBeautify) <==> language == "css"
  {
    if language == "python" then Some(Black)
    else if language == "javascript" then Some(JsBeautify)
    else if language == "html" then Some(HtmlBeautify)
    else if language == "css" then Some(CssBeautify)
    else None
  }

  /** The status the action ends with. */
  datatype Status = NothingToPrettify | NoPrettifier | FormatterFailed | Unchanged | Prettified

  datatype Outcome = Outcome(status: Status, session: Editor.Session)

  /** `prettify_code`: blank code, a language without formatter, a failed
      formatter and an empty or identical result leave the session as it is;
      otherwise the code becomes the formatter's output and the session is
      marked dirty. */
  function PrettifyCode(s: Editor.Session, format: (Formatter, string) -> Option<string>): (r: Outcome)
    ensures IsBlank(s.code) ==> r.status == NothingToPrettify
    ensures !IsBlank(s.code) && FormatterFor(s.language).None? ==> r.status == NoPrettifier
    ensures r.status == Prettified <==>
      && !IsBlank(s.code)
      && FormatterFor(s.language).Some?
      && format(FormatterFor(s.language).value, s.code).Some?
      && format(FormatterFor(s.language).value, s.code).value != ""
      && format(FormatterFor(s.language).value, s.code).value != s.code
    ensures r.status != Prettified ==> r.session == s
    ensures r.status == Prettified ==>
      && r.session.code == format(FormatterFor(s.language).value, s.code).value
      && r.session.code != s.code
      && r.session == Editor.SetDirty(s.(code := r.session.code), true)
    ensures Editor.WellFormed(s) ==> Editor.WellFormed(r.session)
  {
    if IsBlank(s.code) then Outcome(NothingToPrettify, s)
    else
      match FormatterFor(s.language)
      case None => Outcome(NoPrettifier, s)
      case Some(f) =>
        match format(f, s.code)
        case None => Outcome(FormatterFailed, s)
        case Some(out) =>
          if out != "" && out != s.code then Outcome(Prettified, Editor.SetDirty(s.(code := out), true))
          else Outcome(Unchanged, s)
  }

  /** Prettifying is the code editor's own edit: it changes the code exactly
      as typing the formatter's output would. */
  lemma PrettifyIsCodeEdit(s: Editor.Session, format: (Formatter, string) -> Option<string>)
    requires PrettifyCode(s, format).status == Prettified
    ensures PrettifyCode(s, format).session == Editor.EditAsWritten(s, Editor.CodeField, PrettifyCode(s, format).session.code)
  {
  }
}
