/**
  The status line under the transcript. Every message the window shows is
  a `Status`; `Text` renders it the way the window does and `Parse` reads
  it back, so no two statuses render alike.
 */
module Status {
  import opened Wrappers
  import opened Languages
  import opened Strings

  datatype Status =
    | Prompt                          // the default message, shown when idle and after a clear
    | Listening(lang: Language)       // the microphone was switched on
    | LanguageChanged(lang: Language) // a language was picked in the combo box
    | NotUnderstood(lang: Language)   // the recognizer heard nothing it could read
    | ServiceError(msg: string)       // the recognition service failed
    | UnexpectedError(msg: string)    // recognition failed in any other way
    | CaptureError(msg: string)       // listening to the microphone failed
    | NothingToSave                   // save was asked for with an empty transcript
    | Saved(path: string)             // the transcript was written
    | SaveError(msg: string)          // writing the transcript failed

  const PromptText := "Fes clic al micròfon"
  const NothingToSaveText := "No hi ha text per desar"
  const ListeningPrefix := "Escoltant ["
  const NotUnderstoodPrefix := "No he pogut entendre l'àudio ["
  const LanguageChangedPrefix := "Idioma cambiat a: "
  const CapturePrefix := "Error: "
  const ServicePrefix := "Error en el servei: "
  const UnexpectedPrefix := "Error inesperat: "
  const SaveErrorPrefix := "Error en desar: "
  const SavedPrefix := "Transcripció desada a: "

  /** The message the window shows for a status: each is the program's own literal. */
  function Text(st: Status): (r: string)
    ensures st.Prompt? ==> r == "Fes clic al micròfon"
    ensures st.Listening? ==> r == "Escoltant [" + Name(st.lang) + "]"
    ensures st.LanguageChanged? ==> r == "Idioma cambiat a: " + Name(st.lang)
    ensures st.NotUnderstood? ==> r == "No he pogut entendre l'àudio [" + Name(st.lang) + "]"
    ensures st.ServiceError? ==> r == "Error en el servei: " + st.msg
    ensures st.UnexpectedError? ==> r == "Error inesperat: " + st.msg
    ensures st.CaptureError? ==> r == "Error: " + st.msg
    ensures st.NothingToSave? ==> r == "No hi ha text per desar"
    ensures st.Saved? ==> r == "Transcripció desada a: " + st.path
    ensures st.SaveError? ==> r == "Error en desar: " + st.msg
  {
    match st
    case Prompt => PromptText
    case Listening(l) => ListeningPrefix + Name(l) + "]"
    case LanguageChanged(l) => LanguageChangedPrefix + Name(l)
    case NotUnderstood(l) => NotUnderstoodPrefix + Name(l) + "]"
    case ServiceError(m) => ServicePrefix + m
    case UnexpectedError(m) => UnexpectedPrefix + m
    case CaptureError(m) => CapturePrefix + m
    case NothingToSave => NothingToSaveText
    case Saved(p) => SavedPrefix + p
    case SaveError(m) => SaveErrorPrefix + m
  }

  /** The text after `prefix`, when `s` starts with it. */
  function After(s: string, prefix: string): (r: Option<string>)
    ensures r.Some? <==> OccursAt(s, prefix, 0)
    ensures r.Some? ==> s == prefix + r.value
  {
    if OccursAt(s, prefix, 0) then Some(s[|prefix|..]) else None
  }

  /** The language whose name sits between `prefix` and a closing bracket. */
  function Bracketed(s: string, prefix: string): (r: Option<Language>)
    ensures r.Some? ==> s == prefix + Name(r.value) + "]"
  {
    if |prefix| < |s| && OccursAt(s, prefix, 0) && s[|s| - 1] == ']' then
      var r := ByName(s[|prefix|..|s| - 1]);
      assert r.Some? ==> s == prefix + s[|prefix|..|s| - 1] + "]";
      r
    else None
  }

  /** Reads a status message back, or `None` for text the window never shows. */
  function Parse(s: string): (r: Option<Status>)
    ensures r.Some? ==> Text(r.value) == s
  {
    if s == PromptText then Some(Prompt)
    else if s == NothingToSaveText then Some(NothingToSave)
    else if Bracketed(s, ListeningPrefix).Some? then Some(Listening(Bracketed(s, ListeningPrefix).value))
    else if Bracketed(s, NotUnderstoodPrefix).Some? then Some(NotUnderstood(Bracketed(s, NotUnderstoodPrefix).value))
    else if After(s, LanguageChangedPrefix).Some? && ByName(After(s, LanguageChangedPrefix).value).Some? then
      Some(LanguageChanged(ByName(After(s, LanguageChangedPrefix).value).value))
    else if After(s, CapturePrefix).Some? then Some(CaptureError(After(s, CapturePrefix).value))
    else if After(s, ServicePrefix).Some? then Some(ServiceError(After(s, ServicePrefix).value))
    else if After(s, UnexpectedPrefix).Some? then Some(UnexpectedError(After(s, UnexpectedPrefix).value))
    else if After(s, SaveErrorPrefix).Some? then Some(SaveError(After(s, SaveErrorPrefix).value))
    else if After(s, SavedPrefix).Some? then Some(Saved(After(s, SavedPrefix).value))
    else None
  }

  /** `s` neither equals nor starts with `prefix` when the two part at position `i`. */
  lemma PartsAt(s: string, prefix: string, i: nat)
    requires i < |prefix| && i < |s| && s[i] != prefix[i]
    ensures !OccursAt(s, prefix, 0) && s != prefix
  {
    if |prefix| <= |s| {
      assert s[..|prefix|][i] == s[i];
    }
  }

  /** `prefix + t` starts with `prefix`, and `t` is what follows it. */
  lemma AfterPrefix(prefix: string, t: string)
    ensures After(prefix + t, prefix) == Some(t)
  {
    assert (prefix + t)[..|prefix|] == prefix;
    assert (prefix + t)[|prefix|..] == t;
  }

  /** A bracketed language name reads back as that language. */
  lemma BracketedName(prefix: string, l: Language)
    ensures Bracketed(prefix + Name(l) + "]", prefix) == Some(l)
  {
    var s := prefix + Name(l) + "]";
    assert s[..|prefix|] == prefix;
    assert s[|prefix|..|s| - 1] == Name(l);
    var r := ByName(Name(l));
    if r.Some? {
      NamesAndCodesDistinct(r.value, l);
    }
  }

  lemma ParseListening(l: Language)
    ensures Parse(Text(Listening(l))) == Some(Listening(l))
  {
    var s := Text(Listening(l));
    PartsAt(s, PromptText, 0);
    PartsAt(s, NothingToSaveText, 0);
    BracketedName(ListeningPrefix, l);
  }

  lemma ParseNotUnderstood(l: Language)
    ensures Parse(Text(NotUnderstood(l))) == Some(NotUnderstood(l))
  {
    var s := Text(NotUnderstood(l));
    PartsAt(s, PromptText, 0);
    PartsAt(s, NothingToSaveText, 4);
    PartsAt(s, ListeningPrefix, 0);
    BracketedName(NotUnderstoodPrefix, l);
  }

  lemma ParseLanguageChanged(l: Language)
    ensures Parse(Text(LanguageChanged(l))) == Some(LanguageChanged(l))
  {
    var s := Text(LanguageChanged(l));
    PartsAt(s, PromptText, 0);
    PartsAt(s, NothingToSaveText, 0);
    PartsAt(s, ListeningPrefix, 0);
    PartsAt(s, NotUnderstoodPrefix, 0);
    AfterPrefix(LanguageChangedPrefix, Name(l));
    TableMatchesChoices();
    NamesAndCodesDistinct(ByName(Name(l)).value, l);
  }

  /** The checks every "Error..." message passes before its own prefix is tried. */
  lemma ErrorMessageSkipsEarly(m: string, prefix: string)
    requires prefix in {CapturePrefix, ServicePrefix, UnexpectedPrefix, SaveErrorPrefix}
    ensures var s := prefix + m;
      s != PromptText && s != NothingToSaveText &&
      !OccursAt(s, ListeningPrefix, 0) && !OccursAt(s, NotUnderstoodPrefix, 0) &&
      !OccursAt(s, LanguageChangedPrefix, 0)
  {
    var s := prefix + m;
    assert s[0] == 'E' && s[1] == 'r';
    PartsAt(s, PromptText, 0);
    PartsAt(s, NothingToSaveText, 0);
    PartsAt(s, ListeningPrefix, 1);
    PartsAt(s, NotUnderstoodPrefix, 0);
    PartsAt(s, LanguageChangedPrefix, 0);
  }

  lemma ParseCaptureError(m: string)
    ensures Parse(Text(CaptureError(m))) == Some(CaptureError(m))
  {
    ErrorMessageSkipsEarly(m, CapturePrefix);
    AfterPrefix(CapturePrefix, m);
  }

  lemma ParseServiceError(m: string)
    ensures Parse(Text(ServiceError(m))) == Some(ServiceError(m))
  {
    var s := Text(ServiceError(m));
    ErrorMessageSkipsEarly(m, ServicePrefix);
    PartsAt(s, CapturePrefix, 5);
    AfterPrefix(ServicePrefix, m);
  }

  lemma ParseUnexpectedError(m: string)
    ensures Parse(Text(UnexpectedError(m))) == Some(UnexpectedError(m))
  {
    var s := Text(UnexpectedError(m));
    ErrorMessageSkipsEarly(m, UnexpectedPrefix);
    PartsAt(s, CapturePrefix, 5);
    PartsAt(s, ServicePrefix, 6);
    AfterPrefix(UnexpectedPrefix, m);
  }

  lemma ParseSaveError(m: string)
    ensures Parse(Text(SaveError(m))) == Some(SaveError(m))
  {
    var s := Text(SaveError(m));
    ErrorMessageSkipsEarly(m, SaveErrorPrefix);
    PartsAt(s, CapturePrefix, 5);
    PartsAt(s, ServicePrefix, 9);
    PartsAt(s, UnexpectedPrefix, 6);
    AfterPrefix(SaveErrorPrefix, m);
  }

  lemma ParseSaved(p: string)
    ensures Parse(Text(Saved(p))) == Some(Saved(p))
  {
    var s := Text(Saved(p));
    PartsAt(s, PromptText, 0);
    PartsAt(s, NothingToSaveText, 0);
    PartsAt(s, ListeningPrefix, 0);
    PartsAt(s, NotUnderstoodPrefix, 0);
    PartsAt(s, LanguageChangedPrefix, 0);
    PartsAt(s, CapturePrefix, 0);
    PartsAt(s, ServicePrefix, 0);
    PartsAt(s, UnexpectedPrefix, 0);
    PartsAt(s, SaveErrorPrefix, 0);
    AfterPrefix(SavedPrefix, p);
  }

  /** Every message reads back as the status it was rendered from. */
  lemma ParseText(st: Status)
    ensures Parse(Text(st)) == Some(st)
  {
    match st
    case Prompt =>
    case NothingToSave =>
      PartsAt(NothingToSaveText, PromptText, 0);
    case Listening(l) => ParseListening(l);
    case NotUnderstood(l) => ParseNotUnderstood(l);
    case LanguageChanged(l) => ParseLanguageChanged(l);
    case CaptureError(m) => ParseCaptureError(m);
    case ServiceError(m) => ParseServiceError(m);
    case UnexpectedError(m) => ParseUnexpectedError(m);
    case SaveError(m) => ParseSaveError(m);
    case Saved(p) => ParseSaved(p);
  }

  /** No two statuses render alike. */
  lemma TextInjective(a: Status, b: Status)
    ensures Text(a) == Text(b) <==> a == b
  {
    ParseText(a);
    ParseText(b);
  }
}
