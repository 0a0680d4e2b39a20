# Finite ring analyser, modelled in Dafny

The analyser (`AdvancedRingTheory` in `main.py`) takes a list of element
labels together with an addition table and a multiplication table over them.
It answers whether the structure is a ring, records seven properties, keeps
counterexamples for the laws that fail, and names the structure. The name
comes from a fixed decision list: field, division ring, integral domain,
commutative ring with unity, commutative ring, ring with unity, ring. When
the structure is not a ring, the name gives the first ring law that fails.

The model follows the source check by check:

- `tables.dfy` (module `Tables`): tables and the lookup through the
  label-to-index dictionary. The ring laws are stated as predicates on
  labels, together with the identity search.
- `triples.dfy`, `pairs.dfy`: the triple scan (associativity and left
  distributivity) and the pair scan (commutativity, zero divisors). Each is
  written as a loop method, proved equal to a specification list of every
  finding in scan order, cut at three where the source stops.
- `checks.dfy`: one method per `_check_*` of the analyser.
- `validation.dfy`: `_validate_input`, with its error order and messages.
- `analysis.dfy`: `analyze_ring`, the property map, the ring verdict and
  `_classify_ring`, with the verdict text of every classification.
- `consequences.dfy`: what the checked laws imply for the classification.
- `relabel.dfy`: renaming the labels consistently changes no verdict.
- `samples.dfy`: the Z3 sample table of the editor, worked through.
- `corrected.dfy`: the multiplicative-inverse check without the zero (see
  Findings).
- `labels.dfy`: `_number_to_letters`, which names the generated elements
  A, B, …, Z, AA, ….

Labels are a generic type with equality. `_check_*` methods assume what
validation establishes: square tables whose entries are labels. The
dictionary `{elem: i for i, elem in enumerate(elements)}` keeps the last
position of a repeated label, and `IndexOf` does the same. Validation does
not reject repeated labels, so nothing in the model assumes distinct ones.

## Model

| member | source | states |
|---|---|---|
| Tables.Capped | main.py:541-546 | the kept counterexamples are the first three found, or all of them when fewer |
| Tables.IndexOf | main.py:527 | the looked-up index holds the label and no later position does (the dictionary keeps the last one) |
| Tables.Apply | main.py:533-538 | looking up a product of two labels in a validated table gives a label |
| Tables.FirstIdentity | main.py:575-587 | a candidate the search returns is a two-sided identity |
| Tables.FirstIdentityIsFirst | main.py:575-587 | no candidate before the returned one is an identity |
| Tables.FirstIdentityNone | main.py:575-589 | the search finds nothing exactly when no remaining candidate is an identity |
| Tables.NoIdentityIff | main.py:588-589 | the search finds nothing exactly when no label is an identity |
| Tables.IdentityElement | main.py:570-589 | the identity reported is a label and a two-sided identity; none is reported exactly when no label is one |
| Triples.ViolationRecorded | main.py:529-544 | every mismatch at any triple appears among the violations |
| Triples.ViolationSource | main.py:529-544 | every violation comes from some triple of labels |
| Triples.ViolationsGenuine | main.py:540-544 | every recorded counterexample names labels whose two sides really differ, with those sides |
| Triples.ViolationsEmptyIff | main.py:548 | there are no violations exactly when the law holds for every triple |
| Triples.CappedViolations | main.py:545-548 | the capped list holds only genuine counterexamples and is empty exactly when the law holds |
| Triples.ScanThird | main.py:531-546 | the innermost loop appends the findings for its `c` values, and stops exactly when the third counterexample is reached |
| Triples.ScanSecond | main.py:530-546 | the middle loop appends the findings for its `b` rows, and stops exactly when the third counterexample is reached |
| Triples.ScanTriples | main.py:529-548 | the triple scan returns the first three violations in scan order; they are genuine, and none are returned exactly when the law holds |
| Pairs.FindingRecorded | main.py:556-564 | a finding at any pair appears in the full list |
| Pairs.FindingSource | main.py:556-564 | every listed finding comes from some pair of labels |
| Pairs.FindingsExactly | main.py:556-564 | the listed findings are exactly the reports of the flagged pairs |
| Pairs.FindingsEmptyIff | main.py:568 | nothing is listed exactly when no pair is flagged |
| Pairs.AsymmetricPairs | main.py:558-564 | a commutativity counterexample never pairs a label with itself, and comes together with its mirror image |
| Pairs.ScanCommutingRow | main.py:557-566 | the inner loop appends the findings of one row, and stops exactly when the third counterexample is reached |
| Pairs.ScanCommuting | main.py:550-568 | the commutativity scan returns the first three asymmetric pairs in scan order |
| Pairs.ScanZeroRow | main.py:668-674 | one row of the zero-divisor scan lists every non-zero partner whose product is zero |
| Pairs.ScanZeroDivisors | main.py:665-674 | the zero-divisor scan lists every pair of non-zero labels with zero product, uncapped, in scan order |
| Checks.AssociativityIsHolds | main.py:532-540 | the scanned law is associativity of the table |
| Checks.DistributivityIsHolds | main.py:628-637 | the scanned law is left distributivity, a*(b+c) == a*b + a*c |
| Checks.CheckAssociativity | main.py:523-548 | the verdict is associativity; the details are the first three genuine counterexamples |
| Checks.CheckDistributivity | main.py:618-645 | the verdict is left distributivity; the details are the first three genuine counterexamples |
| Checks.CommutingIff | main.py:556-568 | no asymmetric pair is found exactly when the table is commutative |
| Checks.CheckCommutativity | main.py:550-568 | the verdict is commutativity; the details are the first three asymmetric pairs |
| Checks.IsIdentityAt | main.py:576-584 | the inner loop's flag is true exactly when the candidate is a two-sided identity |
| Checks.CheckIdentity | main.py:570-589 | an identity is reported exactly when one exists; it is the first in list order, given with its dictionary index (the identity report) |
| Checks.CheckUnity | main.py:647-650 | the unity check reports what the identity search reports on the multiplication table |
| Checks.FirstInverse | main.py:604-611 | a candidate the inner search returns is a two-sided inverse |
| Checks.FirstInverseIsFirst | main.py:604-611 | no candidate before the returned one is an inverse |
| Checks.FirstInverseNone | main.py:604-613 | the search finds nothing exactly when no remaining candidate is an inverse |
| Checks.NoInverseIff | main.py:604-613 | the search finds nothing exactly when the label has no inverse |
| Checks.MissingExactly | main.py:600-614 | a label is listed as missing exactly when it is in the list and its search failed |
| Checks.InversesAt | main.py:600-611 | a label is in the inverse map exactly when its search succeeded, mapped to the first inverse found |
| Checks.InverseReportExactly | main.py:597-614 | after the whole list, a label is mapped to a genuine inverse exactly when it has one, and is listed missing exactly when it has none |
| Checks.NoneMissingIff | main.py:616 | nothing is missing exactly when every label has an inverse |
| Checks.SearchInverse | main.py:604-611 | the inner loop returns the first inverse of the label, or none when there is none |
| Checks.CheckInverses | main.py:591-616 | without an identity the check fails with its reason; otherwise the details are the inverse map and missing list, and it passes exactly when every label is invertible |
| Checks.CheckAbelianGroup | main.py:493-521 | the verdict is an abelian group; the details are the associativity and commutativity verdicts, the identity with its index, and the inverse report against it, or the reason when there is no identity |
| Checks.CheckZeroDivisors | main.py:652-676 | without an additive identity it fails with its reason; otherwise the details are every zero-divisor pair with the zero, and it reports some exactly when such a pair exists |
| Checks.CheckMultiplicativeInverses | main.py:678-686 | without a unity it fails with its reason; otherwise the details are the inverse report against the unity, and it passes exactly when every label is invertible |
| Validation.Message | main.py:478-491 | the message for a foreign entry contains that entry at a fixed place, and the other messages are shorter |
| Validation.MessageInjective | main.py:478-491 | different errors give different messages |
| Validation.FirstOutside | main.py:488-491 | a position the entry search returns holds a non-label |
| Validation.FirstOutsideIsFirst | main.py:488-491 | every entry before the returned one is a label, and nothing is returned exactly when every entry is one |
| Validation.FirstOutsideAt | main.py:488-491 | a non-label with only labels before it is the one returned |
| Validation.SearchFront | main.py:487-491 | the addition table's foreign entry, when there is one, is found before the multiplication table is looked at |
| Validation.SearchBack | main.py:487-491 | otherwise the multiplication table's first foreign entry is found |
| Validation.ClosedFlat | main.py:486-491 | a table has only labels exactly when its row-major entries all are |
| Validation.Validate | main.py:472-491 | no error exactly when there are at least two labels and both tables are square and closed; each error is reported exactly when all the earlier tests pass and its own fails |
| Validation.CheckShape | main.py:480-484 | the shape test passes exactly when the table has `n` rows of length `n` |
| Validation.FindForeign | main.py:488-491 | the entry walk stops at the table's first non-label entry, or finds none exactly when there is none |
| Validation.ValidateInput | main.py:472-491 | the validation run reports the first problem as defined above |
| Analysis.Label | main.py:690-719 | exactly the three non-ring classifications are reported with a text beginning "Bukan ring" |
| Analysis.Classify | main.py:688-719 | the name is a rejection exactly when the ring verdict is false, and it names the first ring law that fails |
| Analysis.FirstMatchAt | main.py:705-719 | the first rung that matches, after rungs that do not, gives the name |
| Analysis.ClassifyFollowsLadder | main.py:688-719 | the classification is the name of the first matching rung of the decision list |
| Analysis.PropertyMap | main.py:399-436 | all seven properties, and no other key, are recorded, each with its own verdict |
| Analysis.DescribedBy | main.py:403-436 | a property map built from the check verdicts describes the tables |
| Analysis.RingVerdictIsRing | main.py:438-443 | the ring verdict holds exactly when addition is an abelian group, multiplication is associative and left distributivity holds |
| Analysis.RunChecks | main.py:403-436 | every check runs; each verdict is the law it checks, and each details field is that check's full report |
| Analysis.AnalyzeTables | main.py:396-459 | on a valid input there are no errors; all seven properties are recorded and describe the tables; the verdict and the classification follow from them, and the details are every check's report |
| Analysis.AnalyzeRing | main.py:390-470 | a rejected input gives the error result with its one error; a valid one gives the analysis with all seven properties and every report; errors appear exactly when validation fails |
| Consequences.IdentityUnique | main.py:575-587 | an operation has at most one identity |
| Consequences.IdentityElementIsOnly | main.py:570-589 | any identity is the one the search reports |
| Consequences.DoubleIsZero | main.py:493-521 | in an abelian group, an element that is its own double is the identity |
| Consequences.ZeroAbsorbs | main.py:618-645 | under left distributivity, multiplying by the additive identity on the right gives it back |
| Consequences.InvertibleRingIsTrivial | main.py:678-686 | in a ring where every label is invertible, every label is the zero |
| Consequences.NoInversesInNontrivialRing | main.py:678-686 | a ring with two different labels fails the multiplicative-inverse check |
| Consequences.FieldOnlyWhenTrivial | main.py:705-709 | tables with two different labels are never classified field or division ring |
| Consequences.SingleLabelIsField | main.py:705-707 | when every label is one and the same (validation lets repeats through), the structure is classified field |
| Relabel.RenamedIndex | main.py:527 | under a renaming that keeps labels apart, the dictionary gives a renamed label the original's position |
| Relabel.RenamedApply | main.py:533-538 | the product of renamed labels in the renamed table is the renamed product |
| Relabel.RenamedAssociative | main.py:523-548 | renaming keeps the associativity verdict |
| Relabel.RenamedCommutative | main.py:550-568 | renaming keeps the commutativity verdict |
| Relabel.RenamedLeftDistributive | main.py:618-645 | renaming keeps the distributivity verdict |
| Relabel.RenamedIsIdentity | main.py:579-584 | a renamed label is an identity exactly when the original was |
| Relabel.RenamedFirstIdentity | main.py:575-587 | the identity search stops at the same position after renaming |
| Relabel.RenamedIdentityElement | main.py:570-589 | after renaming an identity is found exactly when one was before, and it is the renamed identity |
| Relabel.RenamedHasInverse | main.py:600-611 | a renamed label has an inverse exactly when the original had one |
| Relabel.RenamedAllInvertible | main.py:600-616 | renaming keeps the inverse check's verdict |
| Relabel.RenamedAbelianGroup | main.py:493-521 | renaming keeps the abelian-group verdict |
| Relabel.RenamedInvertible | main.py:678-686 | renaming keeps the multiplicative-inverse verdict |
| Relabel.RenamedZeroDivisors | main.py:652-676 | renaming keeps the zero-divisor verdict |
| Relabel.RelabelKeepsVerdicts | main.py:403-436 | renaming the labels consistently in the list and both tables changes none of the seven recorded verdicts |
| Relabel.RelabelKeepsClassification | main.py:438-446 | renaming the labels changes neither the ring verdict nor the classification |
| Samples.Lookups | main.py:1511-1512 | the sample tables are well formed, and each label is looked up at its own position |
| Samples.Z3AdditionLaws | main.py:1511 | the sample addition is associative and commutative |
| Samples.Z3Negatives | main.py:1511 | A is the additive identity, and every label has a negative |
| Samples.Z3Addition | main.py:1511 | the sample addition is an abelian group with zero A |
| Samples.Z3Multiplication | main.py:1512 | the sample multiplication is associative and commutative with unity B, and A has no inverse |
| Samples.Z3Mixed | main.py:1511-1512 | left distributivity holds and there are no zero divisors |
| Samples.Z3IsIntegralDomain | main.py:1506-1515 | the Z3 sample is classified integral domain |
| Corrected.InvertibleIsNonzeroInvertible | main.py:678-686 | passing the source's inverse check implies passing the corrected one |
| Corrected.CheckNonzeroInverses | main.py:678-686 | the corrected check passes exactly when both identities exist and every non-zero label has an inverse |
| Corrected.Z3NonzeroInvertible | main.py:1506-1515 | every non-zero label of the Z3 sample has an inverse |
| Corrected.Z3IsField | main.py:705-707 | with the corrected inverse property the Z3 sample is classified field |
| Labels.Letter | main.py:1700 | a digit below 26 gives a capital letter |
| Labels.LettersAreCapitals | main.py:1696-1704 | every name is non-empty and made of capital letters |
| Labels.SingleLetterNames | main.py:1698-1703 | exactly the numbers below 26 get one-letter names |
| Labels.LettersInjective | main.py:1696-1704 | different numbers get different names |
| Labels.NumberToLetters | main.py:1696-1704 | the loop computes the bijective base-26 name of its argument |

## Left out

- Run time and `analysis_time`: the clock is not modelled, and the result carries no time.
- `to_dict`, the GUI, the database, JSON import/export, logging and the error handler are not part of this model. The sample loaders are represented only by the Z3 tables.
- Exceptions: validation errors are a datatype with their message texts (`Validation.Message`). No other exception can arise from the checks on a validated input, because every lookup succeeds. So `AnalyzeRing`'s error path carries only validation errors.
- Classification is a datatype. Its text is given by `Analysis.Label`, and the result holds the datatype.
- The analyser reports empty `details` on error; here that is `None`. The per-check details dictionaries are datatypes with the same fields. The `reason` strings are kept, and the dictionary keys are not modelled.
- The analyser's property dictionary keeps its keys in insertion order, which the result window uses when listing them. A Dafny `map` has no order, so the model records which keys are present (all seven) but not their order.
- Relabel.RelabelKeepsVerdicts: renaming is shown to keep the seven verdicts, the ring verdict and the classification. That the reported counterexamples and details become the renamed ones is not stated. Validation under renaming is not covered either, because an entry outside the labels may be renamed onto one.
- Right distributivity is not checked by the source, and so not by the model (`LeftDistributive`).
- The editor loads the Z3 tables as its field sample (main.py:1506-1515), and the two-element Boolean tables (main.py:1517-1526) are the field GF(2). The classifier names both "Integral Domain", and the model follows the classifier (see Findings). The Boolean sample is covered by `Consequences.FieldOnlyWhenTrivial` and is not worked through separately.
- Validation does not reject repeated labels. The model keeps them, so labels are never assumed distinct (`Consequences.SingleLabelIsField`).

## Findings

| source | as written | input that shows it | evidently intended | confidence | as-written member | corrected member |
|---|---|---|---|---|---|---|
| main.py:678-686 | the multiplicative-inverse check demands an inverse of every label, including the additive zero, which never has one in a ring with two different labels; the field and division-ring rungs are therefore unreachable | the Z3 sample (labels A, B, C; addition and multiplication modulo 3), which is classified "Integral Domain" | every label except the additive zero has an inverse, so Z3 is classified "Field" | high; not executed | Samples.Z3IsIntegralDomain, Consequences.FieldOnlyWhenTrivial | Corrected.CheckNonzeroInverses, Corrected.Z3IsField |
