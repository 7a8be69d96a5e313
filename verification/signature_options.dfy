/** The signature-options form. Its state is one options record, holding
    the strings the form's controls offer (`No`, `Enveloped`, `SHA256`,
    `Internally detached`, ...) and two flags; a change replaces one field,
    and after every change the parent is handed the current record. */
module SignatureOptionsForm {
  import Types
  import JsRuntime

  datatype FormOptions = FormOptions(
    container: string,
    signatureFormat: string,
    packaging: string,
    level: string,
    digestAlgorithm: string,
    allowExpiredCertificate: bool,
    addContentTimestamp: bool)

  /** `initialOptions`. */
  const InitialOptions := FormOptions("No", "XAdES", "Enveloped", "B-B", "SHA256", false, false)

  /** The keys of the record, and a value for one of them. */
  datatype Field = ContainerField | FormatField | PackagingField | LevelField | DigestField
                 | AllowExpiredField | ContentTimestampField

  datatype Value = Text(text: string) | Flag(flag: bool)

  /** The typing of `handleOptionChange(field, value)`: string keys take
      strings and the two flags take booleans. */
  predicate FieldAccepts(f: Field, v: Value) {
    if f == AllowExpiredField || f == ContentTimestampField then v.Flag? else v.Text?
  }

  function Get(o: FormOptions, f: Field): (v: Value)
    ensures FieldAccepts(f, v)
  {
    match f
    case ContainerField => Text(o.container)
    case FormatField => Text(o.signatureFormat)
    case PackagingField => Text(o.packaging)
    case LevelField => Text(o.level)
    case DigestField => Text(o.digestAlgorithm)
    case AllowExpiredField => Flag(o.allowExpiredCertificate)
    case ContentTimestampField => Flag(o.addContentTimestamp)
  }

  /** `{ ...prev, [field]: value }`. */
  function Set(o: FormOptions, f: Field, v: Value): FormOptions
    requires FieldAccepts(f, v)
  {
    match f
    case ContainerField => o.(container := v.text)
    case FormatField => o.(signatureFormat := v.text)
    case PackagingField => o.(packaging := v.text)
    case LevelField => o.(level := v.text)
    case DigestField => o.(digestAlgorithm := v.text)
    case AllowExpiredField => o.(allowExpiredCertificate := v.flag)
    case ContentTimestampField => o.(addContentTimestamp := v.flag)
  }

  /** Two records are equal exactly when every field reads the same. */
  lemma FieldsDetermineOptions(a: FormOptions, b: FormOptions)
    requires forall f :: Get(a, f) == Get(b, f)
    ensures a == b
  {
    assert Get(a, ContainerField) == Get(b, ContainerField);
    assert Get(a, FormatField) == Get(b, FormatField);
    assert Get(a, PackagingField) == Get(b, PackagingField);
    assert Get(a, LevelField) == Get(b, LevelField);
    assert Get(a, DigestField) == Get(b, DigestField);
    assert Get(a, AllowExpiredField) == Get(b, AllowExpiredField);
    assert Get(a, ContentTimestampField) == Get(b, ContentTimestampField);
  }

  /** A change sets its field to the value and leaves every other field as
      it was; there is no correction of one field from another (choosing a
      container or a format never touches the packaging). */
  lemma SetSpec(o: FormOptions, f: Field, v: Value)
    requires FieldAccepts(f, v)
    ensures Get(Set(o, f, v), f) == v
    ensures forall g :: g != f ==> Get(Set(o, f, v), g) == Get(o, g)
    ensures f in {ContainerField, FormatField} ==> Set(o, f, v).packaging == o.packaging
  {
  }

  /** Making the same change twice is making it once, and a change to the
      value a field already has changes nothing. */
  lemma SetIdempotent(o: FormOptions, f: Field, v: Value)
    requires FieldAccepts(f, v)
    ensures Set(Set(o, f, v), f, v) == Set(o, f, v)
    ensures Set(o, f, Get(o, f)) == o
  {
    SetSpec(o, f, v);
    SetSpec(Set(o, f, v), f, v);
    FieldsDetermineOptions(Set(Set(o, f, v), f, v), Set(o, f, v));
    SetSpec(o, f, Get(o, f));
    FieldsDetermineOptions(Set(o, f, Get(o, f)), o);
  }

  /** Changes to two different fields commute. */
  lemma SetCommutes(o: FormOptions, f: Field, v: Value, g: Field, w: Value)
    requires FieldAccepts(f, v) && FieldAccepts(g, w) && f != g
    ensures Set(Set(o, f, v), g, w) == Set(Set(o, g, w), f, v)
  {
    SetSpec(o, f, v);
    SetSpec(o, g, w);
    SetSpec(Set(o, f, v), g, w);
    SetSpec(Set(o, g, w), f, v);
    FieldsDetermineOptions(Set(Set(o, f, v), g, w), Set(Set(o, g, w), f, v));
  }

  // ---- the choices offered ----

  const ContainerChoices: seq<string> := ["No", "ASiC-S", "ASiC-E"]
  const FormatChoices: seq<string> := ["XAdES", "CAdES", "PAdES", "JAdES"]
  const PackagingChoices: seq<string> := ["Enveloped", "Enveloping", "Detached", "Internally detached"]
  const LevelChoices: seq<string> := ["B-B", "B-T", "B-LT", "B-LTA"]
  const DigestChoices: seq<string> := ["SHA1", "SHA256", "SHA384", "SHA512"]

  /** How many radio buttons of a group are checked: a button is checked when
      `selected === option`. */
  function CheckedCount(choices: seq<string>, selected: string): (n: nat)
    ensures n <= |choices|
    decreases |choices|
  {
    if choices == [] then 0
    else (if choices[0] == selected then 1 else 0) + CheckedCount(choices[1..], selected)
  }

  predicate Distinct(choices: seq<string>) {
    forall i, j :: 0 <= i < j < |choices| ==> choices[i] != choices[j]
  }

  /** In a group of distinct choices, exactly one button is checked when the
      field holds one of them, and none otherwise. */
  lemma {:induction false} CheckedCountSpec(choices: seq<string>, selected: string)
    requires Distinct(choices)
    ensures CheckedCount(choices, selected) == if selected in choices then 1 else 0
    decreases |choices|
  {
    if choices != [] {
      assert Distinct(choices[1..]) by {
        forall i, j | 0 <= i < j < |choices[1..]| ensures choices[1..][i] != choices[1..][j] {
          assert choices[1..][i] == choices[i + 1] && choices[1..][j] == choices[j + 1];
        }
      }
      CheckedCountSpec(choices[1..], selected);
      if choices[0] == selected {
        assert selected !in choices[1..] by {
          forall k | 0 <= k < |choices[1..]| ensures choices[1..][k] != selected {
            assert choices[1..][k] == choices[k + 1];
          }
        }
      }
      assert selected in choices <==> choices[0] == selected || selected in choices[1..];
    }
  }

  /** The initial record selects one offered choice in every group, so each
      group starts with exactly one checked button. */
  lemma InitialOptionsOffered()
    ensures CheckedCount(ContainerChoices, InitialOptions.container) == 1
    ensures CheckedCount(FormatChoices, InitialOptions.signatureFormat) == 1
    ensures CheckedCount(PackagingChoices, InitialOptions.packaging) == 1
    ensures InitialOptions.level in LevelChoices
    ensures CheckedCount(DigestChoices, InitialOptions.digestAlgorithm) == 1
  {
  }

  /** The form's spellings are not those the shared type declarations
      expect: the container, packaging and digest of the initial record are
      none of the declared values, while format and level are. */
  lemma InitialOptionsVersusDeclaredTypes()
    ensures Types.ParseContainer(InitialOptions.container).None?
    ensures Types.ParsePackaging(InitialOptions.packaging).None?
    ensures Types.ParseDigest(InitialOptions.digestAlgorithm).None?
    ensures Types.ParsePackaging("Internally detached").None?
    ensures Types.ParseFormat(InitialOptions.signatureFormat) == JsRuntime.Some(Types.XAdES)
    ensures Types.ParseLevel(InitialOptions.level) == JsRuntime.Some(Types.BB)
  {
  }

  // ---- the form component ----

  /** The component's state and what it has handed to its parent. */
  class OptionsForm {
    var options: FormOptions
    /** Every record passed to `onChange`, oldest first. */
    var published: seq<FormOptions>

    /** The parent always holds the current record. */
    predicate Valid()
      reads this
    {
      |published| > 0 && published[|published| - 1] == options
    }

    /** Mounting: the initial record, handed to the parent once. */
    constructor()
      ensures Valid()
      ensures options == InitialOptions && published == [InitialOptions]
    {
      options := InitialOptions;
      published := [InitialOptions];
    }

    /** `handleOptionChange(field, value)` and the effect it triggers. */
    method HandleOptionChange(f: Field, v: Value)
      requires Valid() && FieldAccepts(f, v)
      modifies this
      ensures Valid()
      ensures options == Set(old(options), f, v)
      ensures published == old(published) + [options]
    {
      options := Set(options, f, v);
      published := published + [options];
    }
  }
}
