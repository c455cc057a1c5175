/** Exclusive-selection rules shared by the page's components.

    Every component that highlights one element (theme buttons, navigation
    links, skill tabs and panels, filter buttons) first removes the `active`
    class from every element and then adds it back to the chosen ones. The
    components differ only in how they choose:
    - `forEach` over all elements comparing an attribute: every match is chosen;
    - `document.querySelector` with an attribute selector: only the FIRST match;
    - the element that received the click: exactly one position. */
module Selection {

  /** An element of a list, with the attribute the component compares
      (`data-theme`, `href`, `data-tab`, ...) and whether it carries `active`. */
  datatype Marked = Marked(key: string, active: bool)

  /** `b` is `a` with, at most, different `active` flags. */
  predicate SameKeys(a: seq<Marked>, b: seq<Marked>) {
    |a| == |b| && forall k :: 0 <= k < |a| ==> a[k].key == b[k].key
  }

  predicate HasKey(items: seq<Marked>, key: string) {
    exists k :: 0 <= k < |items| && items[k].key == key
  }

  /** No two elements carry the same attribute value. */
  predicate DistinctKeys(items: seq<Marked>) {
    forall i, j :: 0 <= i < j < |items| ==> items[i].key != items[j].key
  }

  /** Position `k` holds the first element whose key is `key`. */
  predicate IsFirstMatch(items: seq<Marked>, key: string, k: int) {
    0 <= k < |items| && items[k].key == key &&
    forall j :: 0 <= j < k ==> items[j].key != key
  }

  /** How many elements carry `active`. */
  function CountActive(items: seq<Marked>): (n: nat)
    ensures n <= |items|
  {
    if |items| == 0 then 0
    else (if items[0].active then 1 else 0) + CountActive(items[1..])
  }

  /** The `forEach` rule: remove `active` from every element, then add it to
      each element whose key equals `key`. */
  function ActivateMatching(items: seq<Marked>, key: string): (r: seq<Marked>)
    ensures SameKeys(items, r)
    ensures forall k :: 0 <= k < |r| ==> (r[k].active <==> items[k].key == key)
  {
    if |items| == 0 then []
    else [Marked(items[0].key, items[0].key == key)] + ActivateMatching(items[1..], key)
  }

  /** The `querySelector` rule: remove `active` from every element, then add it
      to the first element whose key equals `key`, if there is one. */
  function ActivateFirst(items: seq<Marked>, key: string): (r: seq<Marked>)
    ensures SameKeys(items, r)
    ensures forall k :: 0 <= k < |r| ==> (r[k].active <==> IsFirstMatch(items, key, k))
  {
    if |items| == 0 then []
    else if items[0].key == key then [Marked(key, true)] + Deactivate(items[1..])
    else [Marked(items[0].key, false)] + ActivateFirst(items[1..], key)
  }

  /** Remove `active` from every element. */
  function Deactivate(items: seq<Marked>): (r: seq<Marked>)
    ensures SameKeys(items, r)
    ensures forall k :: 0 <= k < |r| ==> !r[k].active
  {
    if |items| == 0 then [] else [Marked(items[0].key, false)] + Deactivate(items[1..])
  }

  /** The clicked-element rule: remove `active` from every element, then add
      it to the element at position `chosen`. */
  function ActivateAt(items: seq<Marked>, chosen: nat): (r: seq<Marked>)
    requires chosen < |items|
    ensures SameKeys(items, r)
    ensures forall k :: 0 <= k < |r| ==> (r[k].active <==> k == chosen)
  {
    seq(|items|, k requires 0 <= k < |items| => Marked(items[k].key, k == chosen))
  }

  /** Applying the `forEach` rule twice with the same key changes nothing the
      second time, and the outcome does not depend on which elements were
      active before. */
  lemma ActivateMatchingIdempotent(items: seq<Marked>, key: string)
    ensures ActivateMatching(ActivateMatching(items, key), key) == ActivateMatching(items, key)
  {
    var once := ActivateMatching(items, key);
    var twice := ActivateMatching(once, key);
    assert |twice| == |once|;
    forall k | 0 <= k < |once| ensures twice[k] == once[k] {
    }
  }

  lemma ActivateMatchingForgetsHistory(a: seq<Marked>, b: seq<Marked>, key: string)
    requires SameKeys(a, b)
    ensures ActivateMatching(a, key) == ActivateMatching(b, key)
  {
    var ra, rb := ActivateMatching(a, key), ActivateMatching(b, key);
    assert |ra| == |rb|;
    forall k | 0 <= k < |ra| ensures ra[k] == rb[k] {
    }
  }

  /** With distinct keys, the `forEach` rule leaves exactly one element active
      when some element carries the key, and none otherwise. */
  lemma {:induction false} ActivateMatchingCount(items: seq<Marked>, key: string)
    requires DistinctKeys(items)
    ensures CountActive(ActivateMatching(items, key)) == if HasKey(items, key) then 1 else 0
  {
    if |items| > 0 {
      var rest := items[1..];
      var r := ActivateMatching(items, key);
      assert r[1..] == ActivateMatching(rest, key);
      assert DistinctKeys(rest) by {
        forall i, j | 0 <= i < j < |rest| ensures rest[i].key != rest[j].key {
          assert rest[i] == items[i + 1] && rest[j] == items[j + 1];
        }
      }
      ActivateMatchingCount(rest, key);
      if items[0].key == key {
        assert !HasKey(rest, key) by {
          forall k | 0 <= k < |rest| ensures rest[k].key != key {
            assert rest[k] == items[k + 1];
          }
        }
      } else {
        HasKeyBeyondHead(items, key);
      }
    }
  }

  /** The `querySelector` rule leaves exactly one element active when some
      element carries the key, and none otherwise, whatever the keys. */
  lemma {:induction false} ActivateFirstCount(items: seq<Marked>, key: string)
    ensures CountActive(ActivateFirst(items, key)) == if HasKey(items, key) then 1 else 0
  {
    if |items| > 0 {
      var rest := items[1..];
      var r := ActivateFirst(items, key);
      if items[0].key == key {
        assert r == [Marked(key, true)] + Deactivate(rest);
        assert r[1..] == Deactivate(rest);
        DeactivateCount(rest);
        assert items[0].key == key;
      } else {
        assert r == [Marked(items[0].key, false)] + ActivateFirst(rest, key);
        assert r[1..] == ActivateFirst(rest, key);
        ActivateFirstCount(rest, key);
        HasKeyBeyondHead(items, key);
      }
    }
  }

  /** When the first element does not carry the key, the key occurs in the
      list exactly when it occurs in the rest. */
  lemma HasKeyBeyondHead(items: seq<Marked>, key: string)
    requires |items| > 0 && items[0].key != key
    ensures HasKey(items, key) <==> HasKey(items[1..], key)
  {
    var rest := items[1..];
    if HasKey(items, key) {
      var k :| 0 <= k < |items| && items[k].key == key;
      assert rest[k - 1] == items[k];
    }
    if HasKey(rest, key) {
      var k :| 0 <= k < |rest| && rest[k].key == key;
      assert items[k + 1] == rest[k];
    }
  }

  lemma {:induction false} DeactivateCount(items: seq<Marked>)
    ensures CountActive(Deactivate(items)) == 0
  {
    if |items| > 0 {
      assert Deactivate(items)[1..] == Deactivate(items[1..]);
      DeactivateCount(items[1..]);
    }
  }

  /** The clicked-element rule always leaves exactly one element active. */
  lemma ActivateAtCount(items: seq<Marked>, chosen: nat)
    requires chosen < |items|
    ensures CountActive(ActivateAt(items, chosen)) == 1
  {
    var r := ActivateAt(items, chosen);
    CountActiveSingle(r, chosen);
  }

  /** A list whose only active element is at `p` has one active element. */
  lemma {:induction false} CountActiveSingle(items: seq<Marked>, p: nat)
    requires p < |items|
    requires forall k :: 0 <= k < |items| ==> (items[k].active <==> k == p)
    ensures CountActive(items) == 1
  {
    if p == 0 {
      NoneActiveCount(items[1..]);
    } else {
      CountActiveSingle(items[1..], p - 1);
    }
  }

  lemma {:induction false} NoneActiveCount(items: seq<Marked>)
    requires forall k :: 0 <= k < |items| ==> !items[k].active
    ensures CountActive(items) == 0
  {
    if |items| > 0 {
      NoneActiveCount(items[1..]);
    }
  }
}
