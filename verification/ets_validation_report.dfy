/** The ETS validation report view: the raw XML report shown with a line
    break between adjacent tags, and three facts read out of it with regular
    expressions — the signature id and format from the first
    `<SignatureIdentifier` tag that carries them, and the text of the first
    `<MainIndication>` element — plus the pass test on that indication. The
    regular expressions are modelled by their search semantics: the leftmost
    starting position wins, greedy repetitions take the longest run that
    still lets the rest match. */
module EtsValidationReport {
  import opened JsRuntime

  // ---- line breaks between tags ----

  /** `xml.replace(/></g, '>\n<')`: every `><` becomes `>`, newline, `<`. */
  function BreakTags(s: string): (r: string)
    ensures s != [] ==> r != [] && r[0] == s[0]
    ensures forall i :: 0 <= i < |r| - 1 ==> !(r[i] == '>' && r[i + 1] == '<')
    decreases |s|
  {
    if |s| >= 2 && s[0] == '>' && s[1] == '<' then ">\n<" + BreakTags(s[2..])
    else if s == [] then []
    else [s[0]] + BreakTags(s[1..])
  }

  /** The text without its newline characters. */
  function WithoutNewlines(s: string): string
    decreases |s|
  {
    if s == [] then [] else (if s[0] == '\n' then [] else [s[0]]) + WithoutNewlines(s[1..])
  }

  lemma {:induction false} WithoutNewlinesAppend(a: string, b: string)
    ensures WithoutNewlines(a + b) == WithoutNewlines(a) + WithoutNewlines(b)
    decreases |a|
  {
    if a != [] {
      assert (a + b)[1..] == a[1..] + b;
      WithoutNewlinesAppend(a[1..], b);
    } else {
      assert a + b == b;
    }
  }

  /** Only newlines are inserted: dropping every newline from the result
      gives the input with its own newlines dropped. */
  lemma {:induction false} BreakTagsOnlyAddsNewlines(s: string)
    ensures WithoutNewlines(BreakTags(s)) == WithoutNewlines(s)
    decreases |s|
  {
    if |s| >= 2 && s[0] == '>' && s[1] == '<' {
      BreakTagsOnlyAddsNewlines(s[2..]);
      WithoutNewlinesAppend(">\n<", BreakTags(s[2..]));
      assert s == "><" + s[2..];
      WithoutNewlinesAppend("><", s[2..]);
      assert WithoutNewlines(">\n<") == "><" by {
        assert ">\n<"[1..] == "\n<";
        assert "\n<"[1..] == "<";
      }
      assert WithoutNewlines("><") == "><" by {
        assert "><"[1..] == "<";
      }
    } else if s != [] {
      BreakTagsOnlyAddsNewlines(s[1..]);
      WithoutNewlinesAppend([s[0]], BreakTags(s[1..]));
      WithoutNewlinesAppend([s[0]], s[1..]);
      assert [s[0]] + s[1..] == s;
    }
  }

  /** No `>` directly followed by `<`. */
  predicate NoAdjacentTags(s: string) {
    forall i :: 0 <= i < |s| - 1 ==> !(s[i] == '>' && s[i + 1] == '<')
  }

  /** A text without `><` is left exactly as it is. */
  lemma {:induction false} BreakTagsIdentity(s: string)
    requires NoAdjacentTags(s)
    ensures BreakTags(s) == s
    decreases |s|
  {
    if s != [] {
      NoAdjacentTagsInSlice(s, 1, |s|);
      assert s[1..|s|] == s[1..];
      BreakTagsIdentity(s[1..]);
      assert [s[0]] + s[1..] == s;
    }
  }

  /** A character that does not open a `><` pair is copied as it is. */
  lemma BreakTagsCons(c: char, t: string)
    requires !(c == '>' && t != [] && t[0] == '<')
    ensures BreakTags([c] + t) == [c] + BreakTags(t)
  {
    assert ([c] + t)[1..] == t;
  }

  /** At the first `><` (the text before it has none), the text before is
      kept, the pair becomes `>`, newline, `<`, and the rest is processed in
      the same way. With `BreakTagsIdentity` this determines the replacement
      of every occurrence. */
  lemma {:induction false} BreakTagsAtFirst(a: string, b: string)
    requires NoAdjacentTags(a)
    ensures BreakTags(a + "><" + b) == a + ">\n<" + BreakTags(b)
    decreases |a|
  {
    if a == [] {
      assert a + "><" + b == "><" + b;
      assert ("><" + b)[2..] == b;
    } else {
      var t := a[1..] + "><" + b;
      assert a + "><" + b == [a[0]] + t;
      assert !(a[0] == '>' && t[0] == '<') by {
        if |a| >= 2 { assert t[0] == a[1]; }
      }
      BreakTagsCons(a[0], t);
      NoAdjacentTagsInSlice(a, 1, |a|);
      assert a[1..|a|] == a[1..];
      BreakTagsAtFirst(a[1..], b);
      assert [a[0]] + a[1..] == a;
    }
  }

  lemma NoAdjacentTagsInSlice(s: string, lo: nat, hi: nat)
    requires NoAdjacentTags(s) && lo <= hi <= |s|
    ensures NoAdjacentTags(s[lo..hi])
  {
    var t := s[lo..hi];
    forall i | 0 <= i < |t| - 1 ensures !(t[i] == '>' && t[i + 1] == '<') {
      assert t[i] == s[lo + i] && t[i + 1] == s[lo + i + 1];
    }
  }

  /** `prettyFormatXml(xml)`: the text with every `><` broken by a newline
      (see `BreakTagsIdentity` and `BreakTagsAtFirst`), then trimmed. The
      result has no two tags on one line and no white space at either end. */
  function PrettyFormatXml(xml: string): (r: string)
    ensures r == Trim(BreakTags(xml))
    ensures NoAdjacentTags(r)
    ensures r != [] ==> !IsWhitespace(r[0]) && !IsWhitespace(r[|r| - 1])
  {
    var b := BreakTags(xml);
    TrimIsSlice(b);
    NoAdjacentTagsInSlice(b, LeadingWhitespace(b), LeadingWhitespace(b) + |Trim(b)|);
    Trim(b)
  }

  // ---- regular-expression searches ----

  /** The length of the longest run of characters outside `stops` starting at
      i: what a greedy `[^...]*` consumes. */
  function Run(s: string, i: nat, stops: set<char>): (n: nat)
    requires i <= |s|
    ensures i + n <= |s|
    ensures forall k :: i <= k < i + n ==> s[k] !in stops
    ensures i + n < |s| ==> s[i + n] in stops
    decreases |s| - i
  {
    if i == |s| || s[i] in stops then 0 else 1 + Run(s, i + 1, stops)
  }

  const Quotes: set<char> := {'"', '\''}

  const SignatureTag := "<SignatureIdentifier"
  const TagEnd: set<char> := {'>'}

  /** `\s<name>=["']([^"']+)["']` matches at q: white space, the attribute
      name, `=`, an opening quote of either kind, a non-empty run of
      non-quote characters, and a closing quote of either kind. */
  predicate AttrAt(s: string, q: nat, name: string) {
    var v := q + |name| + 3;
    && v < |s|
    && IsWhitespace(s[q])
    && s[q + 1..q + 1 + |name|] == name
    && s[q + 1 + |name|] == '='
    && s[q + 2 + |name|] in Quotes
    && Run(s, v, Quotes) >= 1
    && v + Run(s, v, Quotes) < |s|
  }

  /** The captured value of an attribute matched at q. */
  function AttrValue(s: string, q: nat, name: string): (v: string)
    requires AttrAt(s, q, name)
    ensures |v| >= 1 && forall k :: 0 <= k < |v| ==> v[k] !in Quotes
  {
    var start := q + |name| + 3;
    s[start..start + Run(s, start, Quotes)]
  }

  /** The last position in [lo, hi) where the attribute matches: `[^>]*`
      is greedy, so of all attributes inside the tag the last one wins. */
  function LastAttrIn(s: string, lo: nat, hi: nat, name: string): (r: Option<nat>)
    requires lo <= hi
    ensures r.Some? ==> lo <= r.value < hi && AttrAt(s, r.value, name)
    ensures r.Some? ==> forall q :: r.value < q < hi ==> !AttrAt(s, q, name)
    ensures r.None? ==> forall q :: lo <= q < hi ==> !AttrAt(s, q, name)
    decreases hi - lo
  {
    if lo == hi then None
    else if AttrAt(s, hi - 1, name) then Some(hi - 1)
    else LastAttrIn(s, lo, hi - 1, name)
  }

  /** Where `<SignatureIdentifier[^>]*\s<name>=...` matches when the search
      starts at p: the tag name at p, then the attribute somewhere before
      the first `>`. (Position p + 20 + Run is `>` or the end of the text,
      where no white space can stand, so the range is exact.) */
  function TagAttrAt(s: string, p: nat, name: string): Option<nat>
    requires p <= |s|
  {
    if StartsWith(s[p..], SignatureTag) then
      var body := p + |SignatureTag|;
      LastAttrIn(s, body, body + Run(s, body, TagEnd), name)
    else None
  }

  /** A match at p is the tag name at p followed by no `>` up to the
      attribute, and it is the last attribute before the tag's `>`. */
  lemma TagAttrAtSpec(s: string, p: nat, name: string, q: nat)
    requires p <= |s| && TagAttrAt(s, p, name) == Some(q)
    ensures StartsWith(s[p..], SignatureTag)
    ensures p + |SignatureTag| <= q && AttrAt(s, q, name)
    ensures forall k :: p + |SignatureTag| <= k < q ==> s[k] != '>'
    ensures forall q' :: q < q' < |s| && AttrAt(s, q', name) ==>
      exists k :: p + |SignatureTag| <= k < q' && s[k] == '>'
  {
    var body := p + |SignatureTag|;
    LastAttrInTag(s, body, Run(s, body, TagEnd), name, q);
  }

  /** The last attribute inside a run of non-`>` characters lies before
      the first `>`, and any later attribute lies after it. */
  lemma LastAttrInTag(s: string, body: nat, n: nat, name: string, q: nat)
    requires body <= |s| && n == Run(s, body, TagEnd)
    requires LastAttrIn(s, body, body + n, name) == Some(q)
    ensures body <= q && AttrAt(s, q, name)
    ensures forall k :: body <= k < q ==> s[k] != '>'
    ensures forall q' :: q < q' < |s| && AttrAt(s, q', name) ==>
      exists k :: body <= k < q' && s[k] == '>'
  {
    forall q' | q < q' < |s| && AttrAt(s, q', name)
      ensures exists k :: body <= k < q' && s[k] == '>'
    {
      assert body + n <= q';
      assert body + n != q' by {
        assert IsWhitespace(s[q']);
      }
      StopBefore(s, body, n, q');
    }
  }

  /** A run of non-`>` characters that ends before q' ends at a `>`. */
  lemma StopBefore(s: string, body: nat, n: nat, q': nat)
    requires body + n < q' < |s| && s[body + n] in TagEnd
    ensures exists k :: body <= k < q' && s[k] == '>'
  {
    assert s[body + n] == '>';
  }

  /** The leftmost starting position from p on where the pattern matches. */
  function SearchTagAttr(s: string, p: nat, name: string): (r: Option<nat>)
    requires p <= |s|
    ensures r.Some? ==> p <= r.value <= |s| && TagAttrAt(s, r.value, name).Some?
    ensures r.Some? ==> forall t :: p <= t < r.value ==> TagAttrAt(s, t, name).None?
    ensures r.None? ==> forall t :: p <= t <= |s| ==> TagAttrAt(s, t, name).None?
    decreases |s| - p
  {
    if TagAttrAt(s, p, name).Some? then Some(p)
    else if p == |s| then None
    else SearchTagAttr(s, p + 1, name)
  }

  /** `xml.match(/<SignatureIdentifier[^>]*\s<name>=["']([^"']+)["']/)?.[1]`. */
  function SignatureAttribute(xml: string, name: string): (v: Option<string>)
    ensures v.Some? ==> |v.value| >= 1 && forall k :: 0 <= k < |v.value| ==> v.value[k] !in Quotes
  {
    match SearchTagAttr(xml, 0, name)
    case None => None
    case Some(t) => Some(AttrValue(xml, TagAttrAt(xml, t, name).value, name))
  }

  /** `sigId`: the `id` attribute, or "Unknown". */
  function SignatureId(xml: string): string {
    match SignatureAttribute(xml, "id")
    case Some(v) => v
    case None => "Unknown"
  }

  /** `format`: the `Format` attribute, or "N/A". */
  function Format(xml: string): string {
    match SignatureAttribute(xml, "Format")
    case Some(v) => v
    case None => "N/A"
  }

  /** The value read is the capture of the leftmost position where the
      pattern matches, and there is none exactly when no position matches;
      `sigId` then falls back to "Unknown" and `format` to "N/A". */
  lemma SignatureAttributeSpec(xml: string, name: string)
    ensures SignatureAttribute(xml, name).None? <==>
      forall t :: 0 <= t <= |xml| ==> TagAttrAt(xml, t, name).None?
    ensures SignatureAttribute(xml, name).Some? ==>
      exists t :: 0 <= t <= |xml| && TagAttrAt(xml, t, name).Some? &&
        SignatureAttribute(xml, name).value == AttrValue(xml, TagAttrAt(xml, t, name).value, name) &&
        forall t' :: 0 <= t' < t ==> TagAttrAt(xml, t', name).None?
    ensures SignatureAttribute(xml, "id").None? ==> SignatureId(xml) == "Unknown"
    ensures SignatureAttribute(xml, "Format").None? ==> Format(xml) == "N/A"
  {
    var r := SearchTagAttr(xml, 0, name);
    if r.Some? {
      var t := r.value;
      assert TagAttrAt(xml, t, name).Some?;
    }
  }

  // ---- the main indication element ----

  const IndicationOpen := "<MainIndication>"
  const IndicationClose := "</MainIndication>"

  /** `<MainIndication>([^<]+)<\/MainIndication>` matches at p. Only the
      longest `[^<]+` run can be followed by `<`, so it is the capture. */
  predicate IndicationAt(s: string, p: nat) {
    && p + |IndicationOpen| <= |s|
    && s[p..p + |IndicationOpen|] == IndicationOpen
    && var n := Run(s, p + |IndicationOpen|, {'<'});
       n >= 1 && StartsWith(s[p + |IndicationOpen| + n..], IndicationClose)
  }

  function SearchIndication(s: string, p: nat): (r: Option<nat>)
    requires p <= |s|
    ensures r.Some? ==> p <= r.value <= |s| && IndicationAt(s, r.value)
    ensures r.Some? ==> forall t :: p <= t < r.value ==> !IndicationAt(s, t)
    ensures r.None? ==> forall t :: p <= t <= |s| ==> !IndicationAt(s, t)
    decreases |s| - p
  {
    if IndicationAt(s, p) then Some(p)
    else if p == |s| then None
    else SearchIndication(s, p + 1)
  }

  /** `indication`: the element's text, or "Unknown". */
  function IndicationText(xml: string): (text: string)
    ensures text != []
    ensures SearchIndication(xml, 0).Some? ==> '<' !in text
    ensures SearchIndication(xml, 0).None? ==> text == "Unknown"
  {
    match SearchIndication(xml, 0)
    case None => "Unknown"
    case Some(p) =>
      var start := p + |IndicationOpen|;
      var text := xml[start..start + Run(xml, start, {'<'})];
      assert forall k :: 0 <= k < |text| ==> text[k] != '<';
      text
  }

  /** `/passed/i.test(indication)`. */
  predicate IsPassed(indication: string) {
    ContainsIgnoringCase(indication, "passed")
  }

  /** A report without a `<MainIndication>` element shows "Unknown", which
      is not passed. */
  lemma MissingIndicationNotPassed(xml: string)
    requires SearchIndication(xml, 0).None?
    ensures !IsPassed(IndicationText(xml))
  {
    MissingFirstCharacter("Unknown", "passed");
  }
}
