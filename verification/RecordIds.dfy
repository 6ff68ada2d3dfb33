/** The ids of plan items and reviews and the slugs of plans (planning/item_store.py). */
module RecordIds {

  predicate IsUpper(c: char) { 'A' <= c <= 'Z' }

  predicate IsLower(c: char) { 'a' <= c <= 'z' }

  predicate IsDigit(c: char) { '0' <= c <= '9' }

  /** How many capitals `s` begins with. */
  function Capitals(s: string): (n: nat)
    ensures n <= |s|
  {
    if s == "" || !IsUpper(s[0]) then 0 else 1 + Capitals(s[1..])
  }

  predicate AllDigits(s: string) { forall i :: 0 <= i < |s| ==> IsDigit(s[i]) }

  predicate StartsRV(s: string) {
    |s| >= 2 && s[0] == 'R' && s[1] == 'V'
  }

  predicate IsItemId(s: string) {
    !StartsRV(s) && 0 < Capitals(s) < |s| && AllDigits(s[Capitals(s)..])
  }

  lemma {:induction false} CapitalsFirst(s: string, n: nat)
    requires n <= |s| && (forall i :: 0 <= i < n ==> IsUpper(s[i])) && (n < |s| ==> !IsUpper(s[n]))
    ensures Capitals(s) == n
  {
    if n > 0 {
      CapitalsFirst(s[1..], n - 1);
    }
  }

  lemma {:induction false} CapitalsOnly(s: string)
    ensures forall i :: 0 <= i < Capitals(s) ==> IsUpper(s[i])
  {
    if s != "" && IsUpper(s[0]) {
      CapitalsOnly(s[1..]);
    }
  }

  ghost predicate LettersThenDigits(s: string, n: nat) {
    0 < n < |s| && (forall i :: 0 <= i < n ==> IsUpper(s[i])) && (forall i :: n <= i < |s| ==> IsDigit(s[i]))
  }

  /** An item id is capitals and then digits, and does not begin like a review id. */
  lemma {:induction false} ItemIdShape(s: string)
    ensures IsItemId(s) <==> !("RV" <= s) && exists n :: LettersThenDigits(s, n)
  {
    CapitalsOnly(s);
    if n :| LettersThenDigits(s, n) {
      CapitalsFirst(s, n);
    }
    if IsItemId(s) {
      assert forall i :: Capitals(s) <= i < |s| ==> s[i] == s[Capitals(s)..][i - Capitals(s)];
      assert LettersThenDigits(s, Capitals(s));
    }
  }

  predicate IsReviewId(s: string) {
    StartsRV(s) && |s| > 2 && AllDigits(s[2..])
  }

  predicate IsRecordId(s: string) {
    if StartsRV(s) then IsReviewId(s) else IsItemId(s)
  }

  /** Lower-case words joined by single dashes. */
  predicate IsSlug(s: string) {
    && |s| > 0 && s[0] != '-' && s[|s| - 1] != '-'
    && (forall i :: 0 <= i < |s| ==> IsLower(s[i]) || IsDigit(s[i]) || s[i] == '-')
    && (forall i :: 0 <= i < |s| - 1 ==> !(s[i] == '-' && s[i + 1] == '-'))
  }
}
