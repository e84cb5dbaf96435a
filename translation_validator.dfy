/**
  The translation validator: two character-level checks on a proposed
  Vietnamese translation (a diacritic heuristic and a formatting whitelist),
  a verdict that combines them with the term store's own translation, and a
  list of improvement hints.

  Both entry points only read the term store. Each is written as a pure
  function of the store's value (`Validation`, `Suggestions`) carrying the
  properties, and as a method on the validator object that builds its result
  step by step, as the source does, and is proved equal to that function.
 */
module Validator {
  import opened Text
  import opened Ranking
  import opened Dictionary

  /** The precomposed lower-case Vietnamese letters the diacritic check looks
      for (every vowel with a tone mark or a modifier, and `đ`), in the order
      the source lists them, one vowel at a time. */
  const MarkedA: string := "àáảãạăắằẳẵặâấầẩẫậ"
  const MarkedE: string := "èéẻẽẹêếềểễệ"
  const MarkedI: string := "ìíỉĩị"
  const MarkedO: string := "òóỏõọôốồổỗộơớờởỡợ"
  const MarkedU: string := "ùúủũụưứừửữự"
  const MarkedY: string := "ỳýỷỹỵ"
  const VietnameseChars: string := MarkedA + MarkedE + MarkedI + MarkedO + MarkedU + MarkedY + "đ"

  /** The letters whose presence is taken to mean "this is Vietnamese". */
  const VietnameseLetters: string := "ăâđêôơư"

  /** The diacritic heuristic: the lower-cased text contains one of the
      Vietnamese letters but none of the marked letters. */
  predicate HasMissingDiacritics(text: string) {
    var lower := Lower(text);
    var hasVietnameseWords := exists k :: 0 <= k < |lower| && lower[k] in VietnameseLetters;
    var hasDiacritics := exists k :: 0 <= k < |lower| && lower[k] in VietnameseChars;
    hasVietnameseWords && !hasDiacritics
  }

  /** Each Vietnamese letter is itself one of the marked letters. */
  lemma LettersAreMarked(c: char)
    requires c in VietnameseLetters
    ensures c in VietnameseChars
  {
    if c == 'ă' { assert MarkedA[5] == c; }
    else if c == 'â' { assert MarkedA[11] == c; }
    else if c == 'ê' { assert MarkedE[5] == c; }
    else if c == 'ô' { assert MarkedO[5] == c; }
    else if c == 'ơ' { assert MarkedO[11] == c; }
    else if c == 'ư' { assert MarkedU[5] == c; }
    else { assert "đ"[0] == c; }
  }

  /** The heuristic never fires: any character that makes the text look
      Vietnamese is also a marked letter, so "no marked letter" and "some
      Vietnamese letter" never hold together. */
  lemma {:induction false} NeverMissingDiacritics(text: string)
    ensures !HasMissingDiacritics(text)
  {
    var lower := Lower(text);
    if k :| 0 <= k < |lower| && lower[k] in VietnameseLetters {
      LettersAreMarked(lower[k]);
    }
  }

  /** A character the formatting whitelist lets through: ASCII letters and
      digits, the marked lower-case letters, `Đ`, whitespace, `-`, `.`, `,`,
      `(` and `)`. */
  predicate Allowed(c: char) {
    || 'a' <= c <= 'z' || 'A' <= c <= 'Z' || '0' <= c <= '9'
    || c in VietnameseChars || c == 'Đ'
    || IsSpace(c)
    || c == '-' || c == '.' || c == ',' || c == '(' || c == ')'
  }

  /** Two spaces in a row occur in the text. */
  predicate HasDoubleSpace(text: string) {
    exists k :: 0 <= k < |text| - 1 && text[k] == ' ' && text[k + 1] == ' '
  }

  /** The formatting check, rule by rule: non-empty, equal to its own strip,
      no two spaces in a row, and no character outside the whitelist. */
  function CheckFormatting(text: string): bool
  {
    if text == [] then false
    else if text != Strip(text) then false
    else if HasDoubleSpace(text) then false
    else if exists k :: 0 <= k < |text| && !Allowed(text[k]) then false
    else true
  }

  /** The formatting check holds exactly when the text is non-empty, begins
      and ends with a non-whitespace character, has no two spaces in a row,
      and every character is on the whitelist. */
  lemma CheckFormattingIff(text: string)
    ensures CheckFormatting(text) <==>
              && text != []
              && !IsSpace(text[0]) && !IsSpace(text[|text| - 1])
              && (forall k :: 0 <= k < |text| - 1 ==> !(text[k] == ' ' && text[k + 1] == ' '))
              && (forall k :: 0 <= k < |text| ==> Allowed(text[k]))
  {
    StripFixedPoint(text);
  }

  /** The code points the marked letters lie in: lower-case Latin-1 letters,
      `ă`, `đ`, `ĩ`, `ũ`, `ơ`, `ư`, and the odd (small) letters of the Latin
      Extended Additional block. */
  predicate LowerMarkShape(c: char) {
    || '\U{E0}' <= c <= '\U{FD}'
    || c == 'ă' || c == 'đ' || c == 'ĩ' || c == 'ũ' || c == 'ơ' || c == 'ư'
    || ('\U{1EA1}' <= c <= '\U{1EF9}' && (c as int) % 2 == 1)
  }

  lemma MarkedAShape(c: char) requires c in MarkedA ensures LowerMarkShape(c) {}
  lemma MarkedEShape(c: char) requires c in MarkedE ensures LowerMarkShape(c) {}
  lemma MarkedOShape(c: char) requires c in MarkedO ensures LowerMarkShape(c) {}
  lemma MarkedUShape(c: char) requires c in MarkedU ensures LowerMarkShape(c) {}

  /** Every marked letter is lower case. */
  lemma MarkedLettersAreLower(c: char)
    requires c in VietnameseChars
    ensures LowerChar(c) == c
  {
    if c in MarkedA { MarkedAShape(c); }
    else if c in MarkedE { MarkedEShape(c); }
    else if c in MarkedO { MarkedOShape(c); }
    else if c in MarkedU { MarkedUShape(c); }
    assert LowerMarkShape(c);
  }

  /** An upper-case letter other than the ASCII ones and `Đ` (for example
      `Ố` or `À`) fails the formatting check wherever it occurs. */
  lemma UpperCaseAccentedRejected(text: string, k: nat)
    requires k < |text| && LowerChar(text[k]) != text[k]
    requires !('A' <= text[k] <= 'Z') && text[k] != 'Đ'
    ensures !CheckFormatting(text)
  {
    if text[k] in VietnameseChars {
      MarkedLettersAreLower(text[k]);
    }
  }

  const DiffersIssue: string := "Translation differs from dictionary"
  const MissingDiacriticsIssue: string := "Missing diacritical marks"
  const FormattingIssue: string := "Incorrect formatting"

  /** One entry of the verdict's `similar_terms`. */
  datatype SimilarTerm = SimilarTerm(english: string, vietnamese: string, similarity: real)

  /** The verdict of `validate_translation`; `similarTerms` is `None` when the
      verdict has no `similar_terms` entry. */
  datatype ValidationResult = ValidationResult(
    valid: bool,
    issues: seq<string>,
    confidence: real,
    suggestions: seq<string>,
    similarTerms: Option<seq<SimilarTerm>>)

  /** Every key is stored and normalised. */
  predicate KeysOk(st: Store) {
    forall k :: k in st.keys ==> k in st.terms && IsKey(k)
  }

  /** A valid store meets what the validator asks of it. */
  lemma StoreKeysOk(st: Store, clock: nat)
    requires StoreOk(st, clock)
    ensures KeysOk(st)
  {
  }

  /** Every key of `similar` is stored and is its own normal form, so
      looking it up finds its own record. */
  predicate Found(terms: map<string, TermRecord>, similar: seq<Scored<string>>) {
    forall p :: 0 <= p < |similar| ==> similar[p].0 in terms && Normalize(similar[p].0) == similar[p].0
  }

  /** The keys `get_similar_terms` returns are stored keys, so each finds
      its own record. */
  lemma RankedFound(st: Store, english: string, n: int)
    requires KeysOk(st)
    ensures Found(st.terms, Ranked(st.keys, english, n))
  {
    RankedBounds(st.keys, english, n);
    var similar := Ranked(st.keys, english, n);
    forall p | 0 <= p < |similar|
      ensures Normalize(similar[p].0) == similar[p].0
    {
      KeyIsNormal(similar[p].0);
    }
  }

  /** The `similar_terms` list: each similar key with the translation
      `get_translation` finds for it, and its score. */
  function SimilarTerms(terms: map<string, TermRecord>, similar: seq<Scored<string>>): (r: seq<SimilarTerm>)
    requires Found(terms, similar)
    ensures |r| == |similar|
  {
    seq(|similar|, p requires 0 <= p < |similar| =>
      SimilarTerm(similar[p].0, terms[similar[p].0].vietnamese, similar[p].1))
  }

  /** The dictionary check fires: a record exists and differs from the
      proposal once both are lower-cased. */
  predicate Differs(existing: Option<TermRecord>, vietnamese: string) {
    existing.Some? && Lower(existing.value.vietnamese) != Lower(vietnamese)
  }

  /** The verdict before any check: valid, no issue, full confidence. */
  const Fresh: ValidationResult := ValidationResult(true, [], 1.0, [], None)

  /** The dictionary check: on a mismatch, the verdict turns invalid, gets
      the issue, the stored translation as a suggestion, and confidence
      times 0.7. */
  function DictionaryCheck(r: ValidationResult, existing: Option<TermRecord>, vietnamese: string): ValidationResult {
    if Differs(existing, vietnamese)
    then r.(valid := false, issues := r.issues + [DiffersIssue],
            suggestions := r.suggestions + [existing.value.vietnamese], confidence := r.confidence * 0.7)
    else r
  }

  /** The diacritic check: when the heuristic fires, invalid, the issue, and
      confidence times 0.8. */
  function DiacriticCheck(r: ValidationResult, vietnamese: string): ValidationResult {
    if HasMissingDiacritics(vietnamese)
    then r.(valid := false, issues := r.issues + [MissingDiacriticsIssue], confidence := r.confidence * 0.8)
    else r
  }

  /** The formatting check: on bad formatting, invalid, the issue, and
      confidence times 0.9. */
  function FormattingCheck(r: ValidationResult, vietnamese: string): ValidationResult {
    if !CheckFormatting(vietnamese)
    then r.(valid := false, issues := r.issues + [FormattingIssue], confidence := r.confidence * 0.9)
    else r
  }

  /** Attaching `similar_terms` when there are any. */
  function WithSimilar(r: ValidationResult, terms: map<string, TermRecord>, similar: seq<Scored<string>>): ValidationResult
    requires Found(terms, similar)
  {
    if similar != [] then r.(similarTerms := Some(SimilarTerms(terms, similar))) else r
  }

  /** `validate_translation`, given what the store answers: `existing` for
      `get_translation(english)` and `similar` for `get_similar_terms(english)`,
      whose keys are looked up in `terms`. */
  function Validation(existing: Option<TermRecord>, terms: map<string, TermRecord>,
                      similar: seq<Scored<string>>, vietnamese: string): ValidationResult
    requires Found(terms, similar)
  {
    WithSimilar(FormattingCheck(DiacriticCheck(DictionaryCheck(Fresh, existing, vietnamese), vietnamese), vietnamese),
                terms, similar)
  }

  /** What the verdict says: it is invalid exactly when some issue was found;
      the issues come in the fixed order dictionary, then formatting, since
      the diacritic issue never arises; a suggestion is made only on a
      mismatch, and it is the stored translation; confidence is the product
      of the factors of the checks that failed; `similar_terms` is present
      exactly when there are similar keys, and lists them in ranking order
      with their stored translations. */
  lemma ValidationFacts(existing: Option<TermRecord>, terms: map<string, TermRecord>,
                        similar: seq<Scored<string>>, vietnamese: string)
    requires Found(terms, similar)
    ensures var r := Validation(existing, terms, similar, vietnamese);
            && (r.valid <==> r.issues == [])
            && r.issues == (if Differs(existing, vietnamese) then [DiffersIssue] else [])
                           + (if CheckFormatting(vietnamese) then [] else [FormattingIssue])
            && MissingDiacriticsIssue !in r.issues
            && (existing.None? ==> DiffersIssue !in r.issues)
            && r.suggestions == (if Differs(existing, vietnamese) then [existing.value.vietnamese] else [])
            && r.confidence == (if Differs(existing, vietnamese) then 0.7 else 1.0)
                               * (if CheckFormatting(vietnamese) then 1.0 else 0.9)
            && r.confidence in {1.0, 0.7, 0.9, 0.63} && 0.0 < r.confidence <= 1.0
            && (r.similarTerms.Some? <==> similar != [])
            && (r.similarTerms.Some? ==>
                  && |r.similarTerms.value| == |similar|
                  && forall p :: 0 <= p < |similar| ==>
                       r.similarTerms.value[p] == SimilarTerm(similar[p].0, terms[similar[p].0].vietnamese, similar[p].1))
  {
    NeverMissingDiacritics(vietnamese);
  }

  const ConsiderPrefix: string := "Consider using established translation: "
  const AddDiacritics: string := "Add appropriate diacritical marks to Vietnamese text"
  const FixFormatting: string := "Fix formatting issues (whitespace, special characters)"
  const RelatedHeader: string := "Related terms for reference:"

  /** The line `suggest_improvements` writes for a related key. */
  function RelatedLine(term: string, vietnamese: string): (line: string)
    ensures |line| == 4 + |term| + |vietnamese| && line[..2] == "- " && line[2..2 + |term|] == term
    ensures line[2 + |term|..4 + |term|] == ": " && line[4 + |term|..] == vietnamese
  {
    "- " + term + ": " + vietnamese
  }

  /** The lines of `suggest_improvements` for the related keys `related`,
      each with the translation `get_translation` finds for it. */
  function RelatedLines(terms: map<string, TermRecord>, related: seq<Scored<string>>): (lines: seq<string>)
    requires Found(terms, related)
    ensures |lines| == |related|
  {
    seq(|related|, p requires 0 <= p < |related| => RelatedLine(related[p].0, terms[related[p].0].vietnamese))
  }

  /** One more related key adds its line at the end. */
  lemma RelatedLinesStep(terms: map<string, TermRecord>, related: seq<Scored<string>>, i: nat)
    requires Found(terms, related) && i < |related|
    ensures Found(terms, related[..i]) && Found(terms, related[..i + 1])
    ensures RelatedLines(terms, related[..i + 1])
            == RelatedLines(terms, related[..i]) + [RelatedLine(related[i].0, terms[related[i].0].vietnamese)]
  {
    assert related[..i + 1] == related[..i] + [related[i]];
  }

  /** The hint about the stored translation fires: a record exists and is
      not exactly the proposal (case counts here). */
  predicate Unestablished(existing: Option<TermRecord>, vietnamese: string) {
    existing.Some? && existing.value.vietnamese != vietnamese
  }

  /** The related keys `suggest_improvements` lists: the first three. */
  lemma RelatedFound(terms: map<string, TermRecord>, similar: seq<Scored<string>>)
    requires Found(terms, similar)
    ensures Found(terms, Take(similar, 3))
    ensures forall p :: 0 <= p < |Take(similar, 3)| ==> Take(similar, 3)[p] == similar[p]
  {
    var related := Take(similar, 3);
    forall p | 0 <= p < |related|
      ensures related[p] == similar[p]
    {
    }
  }

  /** The hints of `suggest_improvements` that come from the checks. */
  function Hints(existing: Option<TermRecord>, vietnamese: string): seq<string> {
    var s0: seq<string> := [];
    var s1 := if existing.Some? && existing.value.vietnamese != vietnamese
              then s0 + [ConsiderPrefix + existing.value.vietnamese] else s0;
    var s2 := if HasMissingDiacritics(vietnamese) then s1 + [AddDiacritics] else s1;
    if !CheckFormatting(vietnamese) then s2 + [FixFormatting] else s2
  }

  /** The lines about similar keys: none without similar keys, otherwise a
      header and a line for each of the first three. */
  function Related(terms: map<string, TermRecord>, similar: seq<Scored<string>>): seq<string>
    requires Found(terms, similar)
  {
    RelatedFound(terms, similar);
    if similar != [] then [RelatedHeader] + RelatedLines(terms, Take(similar, 3)) else []
  }

  /** `suggest_improvements`, given what the store answers (as for
      `Validation`): the check hints, then the lines about similar keys. */
  function Suggestions(existing: Option<TermRecord>, terms: map<string, TermRecord>,
                       similar: seq<Scored<string>>, vietnamese: string): seq<string>
    requires Found(terms, similar)
  {
    Hints(existing, vietnamese) + Related(terms, similar)
  }

  /** The check hints are exactly: the hint to use the stored translation
      when there is one and it is not exactly the proposal, then the
      formatting hint when formatting fails. There is no room for the
      diacritic hint: it never appears. */
  lemma HintsFacts(existing: Option<TermRecord>, vietnamese: string)
    ensures var h := Hints(existing, vietnamese);
            var m := if Unestablished(existing, vietnamese) then 1 else 0;
            var f := if CheckFormatting(vietnamese) then 0 else 1;
            && |h| == m + f
            && (m == 1 ==> h[0] == ConsiderPrefix + existing.value.vietnamese)
            && (f == 1 ==> h[m] == FixFormatting)
  {
    NeverMissingDiacritics(vietnamese);
  }

  /** The lines about similar keys: none when there are none; otherwise a
      header, then one line for each of the first three (at most) similar
      keys, in ranking order, with its stored translation. */
  lemma RelatedFacts(terms: map<string, TermRecord>, similar: seq<Scored<string>>)
    requires Found(terms, similar)
    ensures var r := Related(terms, similar);
            var related := Take(similar, 3);
            && (similar == [] ==> r == [])
            && (similar != [] ==>
                  && |r| == 1 + |related| && 1 <= |related| <= 3
                  && r[0] == RelatedHeader
                  && forall p :: 0 <= p < |related| ==>
                       related[p] == similar[p] && similar[p].0 in terms
                       && r[1 + p] == RelatedLine(similar[p].0, terms[similar[p].0].vietnamese))
  {
    RelatedFound(terms, similar);
    if similar != [] {
      var related := Take(similar, 3);
      var lines := RelatedLines(terms, related);
      var r := [RelatedHeader] + lines;
      forall p | 0 <= p < |related|
        ensures r[1 + p] == RelatedLine(similar[p].0, terms[similar[p].0].vietnamese)
      {
        assert r[1 + p] == lines[p];
      }
    }
  }

  /** Appending `b` and then `c` is appending `b + c`. */
  lemma AppendAssoc<T>(a: seq<T>, b: seq<T>, c: seq<T>)
    ensures a + b + c == a + (b + c)
  {
  }

  /** `validate_translation` and `suggest_improvements` disagree on case:
      a proposal that matches the stored translation except for case raises
      no issue in the verdict, yet still draws the hint to use the stored
      translation. */
  lemma CaseOnlyDifference(existing: Option<TermRecord>, terms: map<string, TermRecord>,
                           similar: seq<Scored<string>>, vietnamese: string)
    requires Found(terms, similar)
    requires existing.Some? && Lower(existing.value.vietnamese) == Lower(vietnamese)
    requires existing.value.vietnamese != vietnamese
    ensures DiffersIssue !in Validation(existing, terms, similar, vietnamese).issues
    ensures Suggestions(existing, terms, similar, vietnamese)[0] == ConsiderPrefix + existing.value.vietnamese
  {
    ValidationFacts(existing, terms, similar, vietnamese);
    HintsFacts(existing, vietnamese);
  }

  class TranslationValidator {
    const dictionary: MedicalDictionary

    constructor (dictionary: MedicalDictionary)
      ensures this.dictionary == dictionary
    {
      this.dictionary := dictionary;
    }

    /** `validate_translation`: builds the verdict check by check. */
    method ValidateTranslation(english: string, vietnamese: string) returns (results: ValidationResult)
      requires KeysOk(dictionary.State())
      ensures var similar := Ranked(dictionary.keys, english, 5);
              && Found(dictionary.terms, similar)
              && results == Validation(Lookup(dictionary.terms, english), dictionary.terms, similar, vietnamese)
    {
      RankedFound(dictionary.State(), english, 5);
      results := Fresh;

      var existing := dictionary.GetTranslation(english);
      if existing.Some? {
        if Lower(existing.value.vietnamese) != Lower(vietnamese) {
          results := results.(valid := false, issues := results.issues + [DiffersIssue],
                              suggestions := results.suggestions + [existing.value.vietnamese],
                              confidence := results.confidence * 0.7);
        }
      }
      assert results == DictionaryCheck(Fresh, existing, vietnamese);
      ghost var checked := results;

      if HasMissingDiacritics(vietnamese) {
        results := results.(valid := false, issues := results.issues + [MissingDiacriticsIssue],
                            confidence := results.confidence * 0.8);
      }
      assert results == DiacriticCheck(checked, vietnamese);
      checked := results;

      if !CheckFormatting(vietnamese) {
        results := results.(valid := false, issues := results.issues + [FormattingIssue],
                            confidence := results.confidence * 0.9);
      }
      assert results == FormattingCheck(checked, vietnamese);
      checked := results;

      var similar := dictionary.GetSimilarTerms(english);
      if similar != [] {
        results := results.(similarTerms := Some(SimilarEntries(similar)));
      }
      assert results == WithSimilar(checked, dictionary.terms, similar);
    }

    /** The `similar_terms` list of `validate_translation`: each similar key
        with the translation `get_translation` finds for it, and its score. */
    function SimilarEntries(similar: seq<Scored<string>>): (r: seq<SimilarTerm>)
      reads this, dictionary
      requires Found(dictionary.terms, similar)
      ensures r == SimilarTerms(dictionary.terms, similar)
    {
      var entries := seq(|similar|, p requires 0 <= p < |similar| && dictionary.GetTranslation(similar[p].0).Some? reads dictionary =>
        SimilarTerm(similar[p].0, dictionary.GetTranslation(similar[p].0).value.vietnamese, similar[p].1));
      assert forall p :: 0 <= p < |similar| ==> entries[p] == SimilarTerms(dictionary.terms, similar)[p];
      entries
    }

    /** `suggest_improvements`: appends one hint per failed check, then the
        related keys one line at a time. */
    method SuggestImprovements(english: string, vietnamese: string) returns (suggestions: seq<string>)
      requires KeysOk(dictionary.State())
      ensures var similar := Ranked(dictionary.keys, english, 5);
              && Found(dictionary.terms, similar)
              && suggestions == Suggestions(Lookup(dictionary.terms, english), dictionary.terms, similar, vietnamese)
    {
      RankedFound(dictionary.State(), english, 5);
      suggestions := [];

      var existing := dictionary.GetTranslation(english);
      if existing.Some? && existing.value.vietnamese != vietnamese {
        suggestions := suggestions + [ConsiderPrefix + existing.value.vietnamese];
      }

      if HasMissingDiacritics(vietnamese) {
        suggestions := suggestions + [AddDiacritics];
      }

      if !CheckFormatting(vietnamese) {
        suggestions := suggestions + [FixFormatting];
      }
      assert suggestions == Hints(existing, vietnamese);
      ghost var hints := suggestions;

      var similar := dictionary.GetSimilarTerms(english);
      if similar != [] {
        suggestions := suggestions + [RelatedHeader];
        RelatedFound(dictionary.terms, similar);
        var lines := RelatedSuggestions(Take(similar, 3));
        suggestions := suggestions + lines;
        AppendAssoc(hints, [RelatedHeader], lines);
      } else {
        assert hints + [] == hints;
      }
    }

    /** The loop of `suggest_improvements` over the related keys: one line
        per key, with the translation `get_translation` finds for it. */
    method RelatedSuggestions(related: seq<Scored<string>>) returns (lines: seq<string>)
      requires Found(dictionary.terms, related)
      ensures lines == RelatedLines(dictionary.terms, related)
    {
      lines := [];
      ghost var terms := dictionary.terms;
      for i := 0 to |related|
        invariant lines == RelatedLines(terms, related[..i])
      {
        var term := related[i].0;
        var termData := dictionary.GetTranslation(term);
        RelatedLinesStep(terms, related, i);
        lines := lines + [RelatedLine(term, termData.value.vietnamese)];
      }
      assert related[..|related|] == related;
    }
  }
}
