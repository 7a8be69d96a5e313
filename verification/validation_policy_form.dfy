/** The validation-policy form. Its state is one policy record of four
    strings; a change replaces one field, the "Now" button replaces the
    validation time with the current time, and after every change the parent
    is handed the current record. The clock is an input: `nowIso` is what
    `new Date().toISOString()` returns. */
module ValidationPolicyForm {

  datatype PolicyForm = PolicyForm(
    validationModel: string,
    digestAlgorithmRequirement: string,
    validationTime: string,
    trustAnchor: string)

  datatype Field = ModelField | DigestRequirementField | TimeField | TrustAnchorField

  /** `s.slice(0, n)`: the first n characters, or all of a shorter string. */
  function SlicePrefix(s: string, n: nat): (r: string)
    ensures |r| == if |s| < n then |s| else n
    ensures r == s[..|r|]
  {
    if |s| < n then s else s[..n]
  }

  /** `new Date().toISOString().slice(0, 16)`. */
  function LocalTime(nowIso: string): string {
    SlicePrefix(nowIso, 16)
  }

  /** The initial policy at the time `nowIso`. */
  function InitialPolicy(nowIso: string): PolicyForm {
    PolicyForm("Shell", "SHA256", LocalTime(nowIso), "European Union Trusted List (Simulated)")
  }

  function Get(p: PolicyForm, f: Field): string {
    match f
    case ModelField => p.validationModel
    case DigestRequirementField => p.digestAlgorithmRequirement
    case TimeField => p.validationTime
    case TrustAnchorField => p.trustAnchor
  }

  /** `{ ...prev, [field]: value }`. */
  function Set(p: PolicyForm, f: Field, v: string): PolicyForm {
    match f
    case ModelField => p.(validationModel := v)
    case DigestRequirementField => p.(digestAlgorithmRequirement := v)
    case TimeField => p.(validationTime := v)
    case TrustAnchorField => p.(trustAnchor := v)
  }

  /** A change sets its field and leaves the other three as they were, and
      making it twice is making it once. */
  lemma SetSpec(p: PolicyForm, f: Field, v: string)
    ensures Get(Set(p, f, v), f) == v
    ensures forall g :: g != f ==> Get(Set(p, f, v), g) == Get(p, g)
    ensures Set(Set(p, f, v), f, v) == Set(p, f, v)
  {
  }

  // ---- the ISO timestamp ----

  predicate IsDigit(c: char) {
    '0' <= c <= '9'
  }

  /** `YYYY-MM-DDTHH:MM`, the value format of a `datetime-local` input. */
  predicate IsLocalDateTime(s: string) {
    && |s| == 16
    && IsDigit(s[0]) && IsDigit(s[1]) && IsDigit(s[2]) && IsDigit(s[3]) && s[4] == '-'
    && IsDigit(s[5]) && IsDigit(s[6]) && s[7] == '-'
    && IsDigit(s[8]) && IsDigit(s[9]) && s[10] == 'T'
    && IsDigit(s[11]) && IsDigit(s[12]) && s[13] == ':'
    && IsDigit(s[14]) && IsDigit(s[15])
  }

  /** `YYYY-MM-DDTHH:MM:SS.sssZ`, what `toISOString` returns for a year
      between 0 and 9999. */
  predicate IsIsoTimestamp(s: string) {
    && |s| == 24
    && IsLocalDateTime(s[..16])
    && s[16] == ':' && IsDigit(s[17]) && IsDigit(s[18]) && s[19] == '.'
    && IsDigit(s[20]) && IsDigit(s[21]) && IsDigit(s[22]) && s[23] == 'Z'
  }

  /** Cutting an ISO timestamp after the minutes gives exactly a
      `datetime-local` value: the date, `T`, hours and minutes. */
  lemma LocalTimeOfIso(nowIso: string)
    requires IsIsoTimestamp(nowIso)
    ensures IsLocalDateTime(LocalTime(nowIso))
    ensures LocalTime(nowIso) + nowIso[16..] == nowIso
  {
    assert LocalTime(nowIso) == nowIso[..16];
  }

  // ---- the choices offered ----

  const ModelChoices: seq<string> := ["Shell", "Chain"]
  const DigestRequirementChoices: seq<string> := ["Any", "SHA256", "SHA384", "SHA512"]

  /** The defaults are among the offered choices. */
  lemma DefaultsOffered(nowIso: string)
    ensures InitialPolicy(nowIso).validationModel in ModelChoices
    ensures InitialPolicy(nowIso).digestAlgorithmRequirement in DigestRequirementChoices
  {
    assert ModelChoices[0] == "Shell";
    assert DigestRequirementChoices[1] == "SHA256";
  }

  // ---- the form component ----

  class PolicyFormState {
    var policy: PolicyForm
    /** Every record passed to `onChange`, oldest first. */
    var published: seq<PolicyForm>

    /** The parent always holds the current record. */
    predicate Valid()
      reads this
    {
      |published| > 0 && published[|published| - 1] == policy
    }

    /** Mounting at time `nowIso`: the default policy, handed to the parent. */
    constructor(nowIso: string)
      ensures Valid()
      ensures policy == InitialPolicy(nowIso) && published == [policy]
    {
      policy := InitialPolicy(nowIso);
      published := [InitialPolicy(nowIso)];
    }

    /** `handleChange(field, value)` and the effect it triggers. */
    method HandleChange(f: Field, v: string)
      requires Valid()
      modifies this
      ensures Valid()
      ensures policy == Set(old(policy), f, v)
      ensures published == old(published) + [policy]
    {
      policy := Set(policy, f, v);
      published := published + [policy];
    }

    /** The "Now" button at time `nowIso`: only the validation time changes,
        to the first sixteen characters of the timestamp. */
    method SetNow(nowIso: string)
      requires Valid()
      modifies this
      ensures Valid()
      ensures policy == old(policy).(validationTime := LocalTime(nowIso))
      ensures published == old(published) + [policy]
    {
      HandleChange(TimeField, LocalTime(nowIso));
    }
  }
}
