/**
 * Category validation from controller/RecipeController.java: the submitted
 * list (which may be null and may hold nulls, blanks and duplicates) becomes a
 * set of trimmed, non-blank names, accepted only when it has at most
 * MAX_CATEGORIES members.
 */
module CategoryValidation {
  import opened Wrappers
  import opened JavaText

  /** MAX_CATEGORIES. */
  const MaxCategories: nat := 2

  /** ValidationResult: the normalised set, the verdict, and the message of a rejection. */
  datatype ValidationResult = ValidationResult(categories: set<string>, isValid: bool, errorMessage: Option<string>)

  /** The rejection message; it names the limit and the number of categories actually selected. */
  function TooManyCategoriesMessage(selected: nat): (r: string)
    ensures Contains(r, DecimalString(selected))
  {
    var prefix := "カテゴリは" + DecimalString(MaxCategories) + "つまでしか選択できません。現在";
    var r := prefix + DecimalString(selected) + "つ選択されています。";
    assert r[|prefix|..|prefix| + |DecimalString(selected)|] == DecimalString(selected);
    assert OccursAt(r, DecimalString(selected), |prefix|);
    r
  }

  /** The reference definition: the trimmed forms of the non-null, non-blank entries. */
  function Normalize(entries: seq<Option<string>>): set<string> {
    set e | e in entries && e.Some? && !IsBlank(e.value) :: Trim(e.value)
  }

  /** The normalised set of a possibly-null list (null and empty both give the empty set). */
  function Requested(categories: Option<seq<Option<string>>>): set<string> {
    if categories.None? then {} else Normalize(categories.value)
  }

  /** Every normalised category is non-blank and already trimmed. */
  lemma NormalizedAreClean(entries: seq<Option<string>>)
    ensures forall c :: c in Normalize(entries) ==> IsTrimmedNonBlank(c)
  {
    forall c | c in Normalize(entries) ensures IsTrimmedNonBlank(c) {
      var e :| e in entries && e.Some? && !IsBlank(e.value) && Trim(e.value) == c;
      TrimOfNonBlank(e.value);
    }
  }

  /** The normalised set depends only on which entries occur, not on their order or repetition. */
  lemma SameEntriesSameCategories(xs: seq<Option<string>>, ys: seq<Option<string>>)
    requires forall e :: e in xs <==> e in ys
    ensures Normalize(xs) == Normalize(ys)
  {
  }

  /** The set only grows with the list, one entry at a time. */
  lemma NormalizeSnoc(entries: seq<Option<string>>, e: Option<string>)
    ensures Normalize(entries + [e]) ==
            Normalize(entries) + (if e.Some? && !IsBlank(e.value) then {Trim(e.value)} else {})
  {
    assert forall x :: x in entries + [e] <==> x in entries || x == e;
  }

  /** validateCategories. */
  method ValidateCategories(categories: Option<seq<Option<string>>>) returns (result: ValidationResult)
    ensures result.categories == Requested(categories)
    ensures result.isValid <==> |result.categories| <= MaxCategories
    ensures result.errorMessage == if result.isValid then None
                                   else Some(TooManyCategoriesMessage(|result.categories|))
  {
    if categories.None? || |categories.value| == 0 {
      return ValidationResult({}, true, None);
    }
    var entries := categories.value;
    var unique: set<string> := {};
    for i := 0 to |entries|
      invariant unique == Normalize(entries[..i])
    {
      NormalizeSnoc(entries[..i], entries[i]);
      assert entries[..i + 1] == entries[..i] + [entries[i]];
      var cat := entries[i];
      if cat.Some? && !IsBlank(cat.value) {
        unique := unique + {Trim(cat.value)};
      }
    }
    assert entries[..|entries|] == entries;
    if |unique| > MaxCategories {
      return ValidationResult(unique, false, Some(TooManyCategoriesMessage(|unique|)));
    }
    return ValidationResult(unique, true, None);
  }

  /**
   * `new ArrayList<>(new HashSet<>(categories))`: the same entries, each once,
   * in an order the hash set chooses (here, first occurrence).
   */
  method Dedup(categories: Option<seq<Option<string>>>) returns (processed: Option<seq<Option<string>>>)
    ensures processed.None? <==> categories.None?
    ensures processed.Some? ==> forall e :: e in processed.value <==> e in categories.value
    ensures processed.Some? ==>
              forall i, j :: 0 <= i < j < |processed.value| ==> processed.value[i] != processed.value[j]
  {
    if categories.None? {
      return None;
    }
    var entries := categories.value;
    var out: seq<Option<string>> := [];
    for i := 0 to |entries|
      invariant forall e :: e in out <==> e in entries[..i]
      invariant forall a, b :: 0 <= a < b < |out| ==> out[a] != out[b]
    {
      assert entries[..i + 1] == entries[..i] + [entries[i]];
      if entries[i] !in out {
        out := out + [entries[i]];
      }
    }
    assert entries[..|entries|] == entries;
    return Some(out);
  }

  /** The pre-deduplication the controller performs does not change what validation decides. */
  lemma DedupIrrelevant(categories: Option<seq<Option<string>>>, processed: Option<seq<Option<string>>>)
    requires processed.None? <==> categories.None?
    requires processed.Some? ==> forall e :: e in processed.value <==> e in categories.value
    ensures Requested(processed) == Requested(categories)
  {
    if processed.Some? {
      SameEntriesSameCategories(processed.value, categories.value);
    }
  }

  /** [a, b, a] of trimmed non-blank names normalises to {a, b}: the repeat collapses, and two names are accepted. */
  lemma DuplicateEntriesCollapse(a: string, b: string)
    requires IsTrimmedNonBlank(a) && IsTrimmedNonBlank(b)
    ensures Normalize([Some(a), Some(b), Some(a)]) == {a, b}
    ensures |Normalize([Some(a), Some(b), Some(a)])| <= MaxCategories
  {
    NormalizeThree(a, b, a);
    assert {a, b, a} == {a, b};
    assert |{a, b}| <= 2;
  }

  /** Three trimmed non-blank names normalise to the set of those names. */
  lemma NormalizeThree(a: string, b: string, c: string)
    requires IsTrimmedNonBlank(a) && IsTrimmedNonBlank(b) && IsTrimmedNonBlank(c)
    ensures Normalize([Some(a), Some(b), Some(c)]) == {a, b, c}
  {
    TrimmedNonBlankIff(a);
    TrimmedNonBlankIff(b);
    TrimmedNonBlankIff(c);
    var xs := [Some(a), Some(b), Some(c)];
    assert Some(a) in xs && Some(b) in xs && Some(c) in xs;
  }

  /** [a, b, c] with three distinct trimmed non-blank names normalises to a set of 3: over the limit, rejected. */
  lemma ThreeCategoriesRejected(a: string, b: string, c: string)
    requires IsTrimmedNonBlank(a) && IsTrimmedNonBlank(b) && IsTrimmedNonBlank(c)
    requires a != b && b != c && a != c
    ensures |Normalize([Some(a), Some(b), Some(c)])| == 3 > MaxCategories
  {
    NormalizeThree(a, b, c);
    ThreeDistinct(a, b, c);
  }

  /** Three pairwise different values make a set of three. */
  lemma ThreeDistinct(a: string, b: string, c: string)
    requires a != b && b != c && a != c
    ensures |{a, b, c}| == 3
  {
    assert |{a, b}| == 2;
    assert {a, b, c} == {a, b} + {c} && c !in {a, b};
  }
}
