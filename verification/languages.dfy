/**
  The recognition languages the window offers: the read-only combo box
  shows a language's name, and recognition is asked for in its code.
 */
module Languages {
  import opened Wrappers

  datatype Language = Catala | Espanol | English

  /** The name the combo box shows. */
  function Name(l: Language): string
  {
    match l
    case Catala => "Català"
    case Espanol => "Español"
    case English => "English"
  }

  /** The language code passed to the recognizer. */
  function Code(l: Language): string
  {
    match l
    case Catala => "ca-ES"
    case Espanol => "es-ES"
    case English => "en-US"
  }

  /** The window's name-to-code table, in its insertion order. */
  const Table: map<string, string> :=
    map["Català" := "ca-ES", "Español" := "es-ES", "English" := "en-US"]

  /** The combo box's entries, in the table's order. */
  const Choices: seq<Language> := [Catala, Espanol, English]

  /** The code selected when the window opens. */
  const InitialCode: string := "es-ES"

  /** The name the combo box shows when the window opens. */
  const InitialChoice: Language := Catala

  /** The language the combo box shows under `name`, if any. */
  function ByName(name: string): (r: Option<Language>)
    ensures r.Some? ==> Name(r.value) == name
    ensures r.None? ==> forall l :: Name(l) != name
  {
    if name == "Català" then Some(Catala)
    else if name == "Español" then Some(Espanol)
    else if name == "English" then Some(English)
    else None
  }

  /** Every combo entry is in the table, under its own code, and the table holds nothing else. */
  lemma TableMatchesChoices()
    ensures forall l :: Name(l) in Table && Table[Name(l)] == Code(l)
    ensures forall name :: name in Table <==> ByName(name).Some?
    ensures forall l :: l in Choices
    ensures |Choices| == |Table|
  {
    assert Table.Keys == {"Català", "Español", "English"};
    assert |Table.Keys| == 3;
    assert forall l :: l in Choices by {
      forall l ensures l in Choices {
        match l
        case Catala => assert Choices[0] == l;
        case Espanol => assert Choices[1] == l;
        case English => assert Choices[2] == l;
      }
    }
  }

  /** Distinct languages show distinct names and use distinct codes. */
  lemma NamesAndCodesDistinct(a: Language, b: Language)
    ensures Name(a) == Name(b) ==> a == b
    ensures Code(a) == Code(b) ==> a == b
  {
    if Name(a) == Name(b) {
      assert ByName(Name(a)) == Some(a);
    }
  }

  /**
    When the window opens, the combo box shows Català but recognition is
    set to Spanish: the two start out of step until a language is chosen.
   */
  lemma InitialChoiceMismatch()
    ensures Name(InitialChoice) in Table
    ensures Table[Name(InitialChoice)] != InitialCode
    ensures InitialCode in Table.Values
  {
    assert Table["Español"] == InitialCode;
  }
}
