/**
 * The page as the validation and expansion rules see it: a list of elements in document
 * order, each with the selectors it matches, whether it is visible, and whether clicking
 * it raises. A selector whose `locator(...).count()` or `is_visible()` raises is `broken`.
 */
module Dom {

  datatype Element = Element(matches: set<string>, visible: bool, clickFails: bool)

  datatype Page = Page(elements: seq<Element>, broken: set<string>)

  /** `page.locator(sel).count()` over the first `|els|` elements. */
  function MatchCountOf(els: seq<Element>, sel: string): (n: nat)
    ensures n <= |els|
  {
    if els == [] then 0
    else MatchCountOf(els[..|els| - 1], sel) + (if sel in els[|els| - 1].matches then 1 else 0)
  }

  /** How many elements matching `sel` are visible. */
  function VisibleCountOf(els: seq<Element>, sel: string): (n: nat)
    ensures n <= MatchCountOf(els, sel)
  {
    if els == [] then 0
    else
      var last := els[|els| - 1];
      VisibleCountOf(els[..|els| - 1], sel) + (if sel in last.matches && last.visible then 1 else 0)
  }

  function MatchCount(p: Page, sel: string): nat {
    MatchCountOf(p.elements, sel)
  }

  function VisibleCount(p: Page, sel: string): nat {
    VisibleCountOf(p.elements, sel)
  }

  /** No element matches `sel`. */
  predicate NoneMatch(els: seq<Element>, sel: string) {
    forall i :: 0 <= i < |els| ==> sel !in els[i].matches
  }

  /** Every element matching `sel` is invisible. */
  predicate NoneVisible(els: seq<Element>, sel: string) {
    forall i :: 0 <= i < |els| && sel in els[i].matches ==> !els[i].visible
  }

  lemma {:induction false} MatchCountZero(els: seq<Element>, sel: string)
    ensures MatchCountOf(els, sel) == 0 <==> NoneMatch(els, sel)
  {
    if els != [] {
      var init := els[..|els| - 1];
      MatchCountZero(init, sel);
      assert forall i :: 0 <= i < |init| ==> init[i] == els[i];
    }
  }

  lemma {:induction false} VisibleCountZero(els: seq<Element>, sel: string)
    ensures VisibleCountOf(els, sel) == 0 <==> NoneVisible(els, sel)
  {
    if els != [] {
      var init := els[..|els| - 1];
      VisibleCountZero(init, sel);
      assert forall i :: 0 <= i < |init| ==> init[i] == els[i];
    }
  }

  /**
   * The sum, over the selectors of `sels` that do not raise, of their visible matches:
   * the `total_hidden` of the hidden-section checks.
   */
  function VisibleTotal(p: Page, sels: seq<string>): nat {
    if sels == [] then 0
    else
      var last := sels[|sels| - 1];
      VisibleTotal(p, sels[..|sels| - 1]) + (if last in p.broken then 0 else VisibleCount(p, last))
  }

  /** The total is zero exactly when no working selector has a visible match. */
  lemma {:induction false} VisibleTotalZero(p: Page, sels: seq<string>)
    ensures VisibleTotal(p, sels) == 0 <==>
      forall k :: 0 <= k < |sels| && sels[k] !in p.broken ==> NoneVisible(p.elements, sels[k])
  {
    if sels != [] {
      var init := sels[..|sels| - 1];
      VisibleTotalZero(p, init);
      assert forall k :: 0 <= k < |init| ==> init[k] == sels[k];
      VisibleCountZero(p.elements, sels[|sels| - 1]);
    }
  }

  /** Adding selectors never lowers the total. */
  lemma {:induction false} VisibleTotalPrefix(p: Page, sels: seq<string>, n: nat)
    requires n <= |sels|
    ensures VisibleTotal(p, sels[..n]) <= VisibleTotal(p, sels)
    decreases |sels|
  {
    if n < |sels| {
      var init := sels[..|sels| - 1];
      assert init[..n] == sels[..n];
      VisibleTotalPrefix(p, init, n);
    } else {
      assert sels[..n] == sels;
    }
  }

  /** Counts the visible matches of `sel` one element at a time. */
  method CountVisible(p: Page, sel: string) returns (visible: nat)
    ensures visible == VisibleCount(p, sel)
  {
    visible := 0;
    var i := 0;
    while i < |p.elements|
      invariant i <= |p.elements|
      invariant visible == VisibleCountOf(p.elements[..i], sel)
    {
      var e := p.elements[i];
      assert p.elements[..i + 1][..i] == p.elements[..i];
      if sel in e.matches && e.visible {
        visible := visible + 1;
      }
      i := i + 1;
    }
    assert p.elements[..i] == p.elements;
  }

  /**
   * The nested loop of the hidden-section checks: for each selector, a raising selector
   * is skipped, otherwise its visible matches are added.
   */
  method CountVisibleTotal(p: Page, sels: seq<string>) returns (total: nat)
    ensures total == VisibleTotal(p, sels)
  {
    total := 0;
    var k := 0;
    while k < |sels|
      invariant k <= |sels|
      invariant total == VisibleTotal(p, sels[..k])
    {
      assert sels[..k + 1][..k] == sels[..k];
      if sels[k] !in p.broken {
        var visible := CountVisible(p, sels[k]);
        total := total + visible;
      }
      k := k + 1;
    }
    assert sels[..k] == sels;
  }
}
