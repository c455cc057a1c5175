/** The skill-category tabs (`SkillsTabs.switchTab`).

    Switching to a tab removes `active` from every tab and every panel, then
    looks up the tab with `data-tab` equal to the target and the panel with
    `data-panel` equal to the target with `querySelector`, which returns the
    first match in document order, and marks each one found active. */
module SkillsTabs {
  import opened Selection

  /** Tabs (key: `data-tab`) and panels (key: `data-panel`). */
  datatype Tabs = Tabs(tabs: seq<Marked>, panels: seq<Marked>)

  function SwitchTab(t: Tabs, target: string): (r: Tabs)
    ensures SameKeys(t.tabs, r.tabs) && SameKeys(t.panels, r.panels)
    ensures forall k :: 0 <= k < |r.tabs| ==> (r.tabs[k].active <==> IsFirstMatch(t.tabs, target, k))
    ensures forall k :: 0 <= k < |r.panels| ==> (r.panels[k].active <==> IsFirstMatch(t.panels, target, k))
  {
    Tabs(ActivateFirst(t.tabs, target), ActivateFirst(t.panels, target))
  }

  /** After a switch at most one tab and at most one panel are active, even
      when several share the target: exactly one of each when one exists. */
  lemma SwitchTabSingleActive(t: Tabs, target: string)
    ensures CountActive(SwitchTab(t, target).tabs) == if HasKey(t.tabs, target) then 1 else 0
    ensures CountActive(SwitchTab(t, target).panels) == if HasKey(t.panels, target) then 1 else 0
  {
    ActivateFirstCount(t.tabs, target);
    ActivateFirstCount(t.panels, target);
  }

  /** Switching twice to the same target changes nothing the second time. */
  lemma SwitchTabIdempotent(t: Tabs, target: string)
    ensures SwitchTab(SwitchTab(t, target), target) == SwitchTab(t, target)
  {
    var once := SwitchTab(t, target);
    var twice := SwitchTab(once, target);
    FirstMatchKeysOnly(t.tabs, once.tabs, target);
    FirstMatchKeysOnly(t.panels, once.panels, target);
    assert twice.tabs == once.tabs;
    assert twice.panels == once.panels;
  }

  /** Which position is the first match depends on the keys alone. */
  lemma FirstMatchKeysOnly(a: seq<Marked>, b: seq<Marked>, key: string)
    requires SameKeys(a, b)
    ensures forall k :: 0 <= k < |a| ==> (IsFirstMatch(a, key, k) <==> IsFirstMatch(b, key, k))
  {
  }
}
