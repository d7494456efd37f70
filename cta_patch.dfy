// The billing page patcher that swaps the checkout block for the BillingCTA
// component by text search: two import rewrites over the whole file, then
// one span cut between a start marker and the first end marker after it.

module CtaPatch {
  import opened Wrappers
  import opened Strings

  const I18nImport: string := "import {t, normLang} from \"../_lib/i18n\";"
  const CtaImport: string := "import BillingCTA from \"./_components/BillingCTA\";"
  const CheckoutImport: string := "import { startCheckout } from \"./actions\";"
  /** The checkout import together with its line break. */
  const CheckoutImportLine: string := CheckoutImport + "\n"
  const StartMarker: string := "      {currentPlan === \"platinum\" ? ("
  const EndMarker: string := "      )}"
  /**
   * The BillingCTA element. It is written as two literals because the verifier
   * reads the characters of a short literal directly but not those of a long one.
   */
  const CtaElement: string := "      <BillingCTA currentPlan={currentPlan}" + " lang={lang} />"

  /** How the patch ends: the new page text, or the marker whose absence stopped it before writing. */
  datatype Patch = Patched(content: string) | StartMarkerMissing | EndMarkerMissing

  /** Both import rewrites, each applied to every occurrence (Python's `str.replace`). */
  function SwapImports(content: string): string
  {
    var added := ReplaceAll(content, I18nImport, I18nImport + "\n" + CtaImport);
    ReplaceAll(added, CheckoutImportLine, "")
  }

  /** The whole script on the page text read from disk. */
  function ReplaceCta(content: string): Patch
  {
    var c := SwapImports(content);
    match IndexOf(c, StartMarker)
    case None => StartMarkerMissing
    case Some(s) =>
      match IndexOfFrom(c, EndMarker, s)
      case None => EndMarkerMissing
      case Some(e) => Patched(c[..s] + CtaElement + c[e + |EndMarker|..])
  }

  // ---------------------------------------------------------- the error exits

  /** The script stops before writing exactly when the start marker is absent after the import swap. */
  lemma {:induction false} StartMissingExits(content: string)
    ensures ReplaceCta(content) == StartMarkerMissing <==> !Contains(SwapImports(content), StartMarker)
  {
  }

  /**
   * The end marker is looked for only at or after the start marker: the
   * script stops when no end marker follows the first start marker, even if
   * one occurs earlier.
   */
  lemma {:induction false} EndMissingExits(content: string)
    ensures ReplaceCta(content) == EndMarkerMissing <==>
      (Contains(SwapImports(content), StartMarker) &&
       forall k :: IndexOf(SwapImports(content), StartMarker).value <= k ==> !OccursAt(SwapImports(content), EndMarker, k))
  {
    var c := SwapImports(content);
    match IndexOf(c, StartMarker)
    case None =>
    case Some(s) =>
      match IndexOfFrom(c, EndMarker, s)
      case None =>
      case Some(e) =>
        assert OccursAt(c, EndMarker, e);
  }

  // ---------------------------------------------------------- the span cut

  /** `s` is the first place the start marker occurs and `e` the first end marker at or after it. */
  predicate SpanBounds(c: string, s: nat, e: nat)
  {
    OccursAt(c, StartMarker, s) && (forall q :: 0 <= q < s ==> !OccursAt(c, StartMarker, q)) &&
    s <= e && OccursAt(c, EndMarker, e) && (forall q :: s <= q < e ==> !OccursAt(c, EndMarker, q))
  }

  /**
   * A successful patch replaces exactly the span from the first start marker
   * through the end of the first end marker after it; the text before and
   * the text after are kept as they were.
   */
  lemma {:induction false} PatchedSpan(content: string)
    requires ReplaceCta(content).Patched?
    ensures exists s: nat, e: nat :: (SpanBounds(SwapImports(content), s, e) &&
      ReplaceCta(content).content ==
        SwapImports(content)[..s] + CtaElement + SwapImports(content)[e + |EndMarker|..])
  {
    var c := SwapImports(content);
    var s := IndexOf(c, StartMarker).value;
    var e := IndexOfFrom(c, EndMarker, s).value;
    assert SpanBounds(c, s, e);
  }

  /** Conversely, whenever the markers are found where `SpanBounds` says, the patch cuts there. */
  lemma {:induction false} SpanPatched(content: string, s: nat, e: nat)
    requires SpanBounds(SwapImports(content), s, e)
    ensures ReplaceCta(content) ==
      Patched(SwapImports(content)[..s] + CtaElement + SwapImports(content)[e + |EndMarker|..])
  {
    var c := SwapImports(content);
    IndexOfAt(c, StartMarker, s);
    IndexOfFromAt(c, EndMarker, s, e);
  }

  // ---------------------------------------------------------- the imports

  /**
   * Replacing every occurrence when there is a single one (nothing earlier,
   * nothing after) rewrites just that one.
   */
  lemma {:induction false} ReplaceAllOnce(a: string, pat: string, b: string, rep: string)
    requires |pat| > 0
    requires forall q :: 0 <= q < |a| ==> !OccursAt(a + pat + b, pat, q)
    requires !Contains(b, pat)
    ensures ReplaceAll(a + pat + b, pat, rep) == a + rep + b
  {
    var s := a + pat + b;
    assert s[|a|..|a| + |pat|] == pat;
    IndexOfAt(s, pat, |a|);
    assert s[..|a|] == a;
    assert s[|a| + |pat|..] == b;
    ReplaceAllAbsent(b, pat, rep);
  }

  /** The BillingCTA import goes on a new line right after a single i18n import. */
  lemma {:induction false} CtaImportAdded(a: string, b: string)
    requires forall q :: 0 <= q < |a| ==> !OccursAt(a + I18nImport + b, I18nImport, q)
    requires !Contains(b, I18nImport)
    ensures ReplaceAll(a + I18nImport + b, I18nImport, I18nImport + "\n" + CtaImport) ==
      a + (I18nImport + "\n" + CtaImport) + b
  {
    ReplaceAllOnce(a, I18nImport, b, I18nImport + "\n" + CtaImport);
  }

  /** A single checkout import line is cut out, its line break with it. */
  lemma {:induction false} CheckoutImportRemoved(a: string, b: string)
    requires forall q :: 0 <= q < |a| ==> !OccursAt(a + CheckoutImportLine + b, CheckoutImportLine, q)
    requires !Contains(b, CheckoutImportLine)
    ensures ReplaceAll(a + CheckoutImportLine + b, CheckoutImportLine, "") == a + b
  {
    assert a + "" == a;
    ReplaceAllOnce(a, CheckoutImportLine, b, "");
  }

  /** A page holding neither import is left as it is by the swap. */
  lemma {:induction false} SwapWithoutImports(content: string)
    requires !Contains(content, I18nImport) && !Contains(content, CheckoutImportLine)
    ensures SwapImports(content) == content
  {
    ReplaceAllAbsent(content, I18nImport, I18nImport + "\n" + CtaImport);
    ReplaceAllAbsent(content, CheckoutImportLine, "");
  }
}
