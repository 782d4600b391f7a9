/** The page the updater writes to, reduced to what its handlers touch: each
    element found by id, with its inner HTML, its image source and its
    `style.display`. The counter and switch handlers of both versions set
    `style.display` on a run of elements in order and stop at the first id
    that names no element; that run is described here once, as a sequence
    of writes, together with the loops that perform it on a `Document`. */
module Overlay {
  import opened Base
  import opened Text

  datatype Element = Element(html: string, src: string, display: string)

  /** `document.getElementById`: the elements that exist, by id. */
  type Elements = map<string, Element>

  /** `String(x)` for a settings entry handed over as an id. */
  function IdText(d: Descriptor): string
  {
    match d
    case Id(s) => s
    case Ids(ids) => Join(ids, ',')
    case Table(_) => "[object Object]"
  }

  /** `ids[i]` as the id getElementById looks up: a one-letter string when the
      entry is a string, and "undefined" past the end or before the start. */
  function IdAt(d: Descriptor, i: int): string
  {
    match d
    case Ids(ids) => if 0 <= i < |ids| then ids[i] else "undefined"
    case Id(s) => if 0 <= i < |s| then [s[i]] else "undefined"
    case Table(t) => match Get(t, IntText(i)) case Some(v) => v case None => "undefined"
  }

  /** `ids.length`, None when the entry is an object (the comparison with
      undefined is false, so the hiding loop does not run). */
  function LengthOf(d: Descriptor): Option<nat>
  {
    match d
    case Ids(ids) => Some(|ids|)
    case Id(s) => Some(|s|)
    case Table(_) => None
  }

  /** `Object.keys(valueSwitch)` paired with `valueSwitch[key]`: an array or a
      string enumerates its indices. */
  function SwitchView(d: Descriptor): (t: Dict<string>)
    ensures d.Table? ==> t == d.table
    ensures d.Ids? ==> |t| == |d.ids| && forall k :: 0 <= k < |t| ==> t[k] == Entry(NatText(k), d.ids[k])
  {
    match d
    case Table(t) => t
    case Ids(ids) => seq(|ids|, k requires 0 <= k < |ids| => Entry(NatText(k), ids[k]))
    case Id(s) => seq(|s|, k requires 0 <= k < |s| => Entry(NatText(k), [s[k]]))
  }

  /** What a switch reads: an array or string switch enumerates the keys
      "0", "1", … once each, and the key of index k reads its k-th id (or
      character); an object switch is its own properties. */
  lemma {:induction false} SwitchViewReads(d: Descriptor)
    ensures d.Table? ==> SwitchView(d) == d.table
    ensures !d.Table? ==> DistinctKeys(SwitchView(d))
    ensures d.Ids? ==> forall k :: 0 <= k < |d.ids| ==> Get(SwitchView(d), NatText(k)) == Some(d.ids[k])
    ensures d.Id? ==> forall k :: 0 <= k < |d.id| ==> Get(SwitchView(d), NatText(k)) == Some([d.id[k]])
  {
    var t := SwitchView(d);
    if !d.Table? {
      assert forall k :: 0 <= k < |t| ==> t[k].key == NatText(k);
      forall i, j | 0 <= i < j < |t| ensures t[i].key != t[j].key {
        if t[i].key == t[j].key {
          assert IntText(i) == NatText(i) && IntText(j) == NatText(j);
          IntTextInjective(i, j);
        }
      }
      forall k | 0 <= k < |t| ensures Get(t, NatText(k)) == Some(t[k].value) {
        GetAtIndex(t, k);
      }
    }
  }

  /** `getElementById(id).style.display = display`. */
  datatype Style = Style(id: string, display: string)

  /** The elements after a run of writes, and the id that stopped it, if any. */
  datatype Outcome = Outcome(elements: Elements, missing: Option<string>)

  /** Performs the writes in order; a write whose element does not exist ends
      the run and nothing after it happens. */
  function Perform(e: Elements, writes: seq<Style>): (o: Outcome)
    ensures o.missing.Some? ==> o.missing.value !in e
  {
    if writes == [] then Outcome(e, None)
    else if writes[0].id !in e then Outcome(e, Some(writes[0].id))
    else Perform(e[writes[0].id := e[writes[0].id].(display := writes[0].display)], writes[1..])
  }

  /** Writes change displays only: no element appears or disappears. */
  lemma {:induction false} PerformKeepsElements(e: Elements, writes: seq<Style>)
    ensures Perform(e, writes).elements.Keys == e.Keys
  {
    if writes != [] && writes[0].id in e {
      var e' := e[writes[0].id := e[writes[0].id].(display := writes[0].display)];
      PerformKeepsElements(e', writes[1..]);
      assert e'.Keys == e.Keys;
    }
  }

  predicate AllPresent(e: Elements, writes: seq<Style>)
  {
    forall k :: 0 <= k < |writes| ==> writes[k].id in e
  }

  /** The display an element ends with: that of the last write to it, or the
      one it had when no write names it. */
  function LastDisplay(writes: seq<Style>, id: string, initial: string): string
  {
    if writes == [] then initial
    else if writes[|writes| - 1].id == id then writes[|writes| - 1].display
    else LastDisplay(writes[..|writes| - 1], id, initial)
  }

  /** A run stops exactly when some write names a missing element, and then
      at the first such write, with the effect of the writes before it. */
  lemma {:induction false} PerformStops(e: Elements, writes: seq<Style>)
    ensures Perform(e, writes).missing.None? <==> AllPresent(e, writes)
    ensures forall k :: 0 <= k < |writes| && writes[k].id !in e && (forall j :: 0 <= j < k ==> writes[j].id in e) ==>
      Perform(e, writes) == Outcome(Perform(e, writes[..k]).elements, Some(writes[k].id))
  {
    if writes != [] {
      var w, rest := writes[0], writes[1..];
      assert forall k :: 0 <= k < |rest| ==> rest[k] == writes[k + 1];
      if w.id in e {
        var e' := e[w.id := e[w.id].(display := w.display)];
        PerformStops(e', rest);
        forall k | 0 <= k < |writes| && writes[k].id !in e && (forall j :: 0 <= j < k ==> writes[j].id in e)
          ensures Perform(e, writes) == Outcome(Perform(e, writes[..k]).elements, Some(writes[k].id))
        {
          assert writes[..k][1..] == rest[..k - 1];
          assert rest[k - 1].id !in e';
        }
      }
    }
  }

  /** The run from position i: a missing element stops it there, otherwise
      the write happens and the run goes on from i + 1. */
  lemma PerformStep(e: Elements, writes: seq<Style>, i: nat)
    requires i < |writes|
    ensures Perform(e, writes[i..]) ==
      if writes[i].id !in e then Outcome(e, Some(writes[i].id))
      else Perform(e[writes[i].id := e[writes[i].id].(display := writes[i].display)], writes[i + 1..])
  {
    assert writes[i..][0] == writes[i];
    assert writes[i..][1..] == writes[i + 1..];
  }

  /** A run resumed at write i, which sets `display` on `id`: it stops there
      when the element is missing and otherwise resumes at i + 1. */
  lemma PerformNext(e0: Elements, writes: seq<Style>, i: nat, e: Elements, id: string, display: string)
    requires i < |writes| && writes[i] == Style(id, display)
    requires Perform(e0, writes) == Perform(e, writes[i..])
    ensures id !in e ==> Perform(e0, writes) == Outcome(e, Some(id))
    ensures id in e ==> Perform(e0, writes) == Perform(e[id := e[id].(display := display)], writes[i + 1..])
  {
    PerformStep(e, writes, i);
  }

  /** A run of two parts: the second runs only when the first did not stop. */
  lemma {:induction false} PerformAppend(e: Elements, first: seq<Style>, second: seq<Style>)
    ensures var o := Perform(e, first);
      Perform(e, first + second) == if o.missing.Some? then o else Perform(o.elements, second)
  {
    if first != [] {
      var w := first[0];
      assert (first + second)[0] == w && (first + second)[1..] == first[1..] + second;
      if w.id in e {
        PerformAppend(e[w.id := e[w.id].(display := w.display)], first[1..], second);
      }
    } else {
      assert first + second == second;
    }
  }

  /** One more write after a run that did not stop. */
  lemma {:induction false} PerformSnoc(e: Elements, writes: seq<Style>, w: Style)
    requires Perform(e, writes).missing.None?
    ensures Perform(e, writes + [w]) == Perform(Perform(e, writes).elements, [w])
  {
    if writes != [] {
      var e' := e[writes[0].id := e[writes[0].id].(display := writes[0].display)];
      assert (writes + [w])[1..] == writes[1..] + [w];
      PerformSnoc(e', writes[1..], w);
    }
  }

  /** When every element a run names exists, the run does not stop, each
      element ends with the display of the last write to it, every other
      part of every element is as before, and no element comes or goes. */
  lemma {:induction false} PerformDisplays(e: Elements, writes: seq<Style>)
    requires AllPresent(e, writes)
    ensures var o := Perform(e, writes);
      && o.missing.None?
      && o.elements.Keys == e.Keys
      && forall id :: id in e ==> o.elements[id] == e[id].(display := LastDisplay(writes, id, e[id].display))
  {
    PerformStops(e, writes);
    PerformKeepsElements(e, writes);
    if writes != [] {
      var init, w := writes[..|writes| - 1], writes[|writes| - 1];
      assert writes == init + [w];
      assert AllPresent(e, init) by {
        forall k | 0 <= k < |init| ensures init[k].id in e { assert init[k] == writes[k]; }
      }
      PerformDisplays(e, init);
      PerformSnoc(e, init, w);
      var mid := Perform(e, init).elements;
      assert Perform(mid, [w]).elements == mid[w.id := mid[w.id].(display := w.display)];
    }
  }

  /** The display of an element that exactly one write names. */
  lemma {:induction false} LastDisplayOfOne(writes: seq<Style>, id: string, initial: string, i: nat)
    requires i < |writes| && writes[i].id == id
    requires forall k :: 0 <= k < |writes| && k != i ==> writes[k].id != id
    ensures LastDisplay(writes, id, initial) == writes[i].display
  {
    if i < |writes| - 1 {
      var init := writes[..|writes| - 1];
      assert init[i] == writes[i];
      forall k | 0 <= k < |init| && k != i ensures init[k].id != id { assert init[k] == writes[k]; }
      LastDisplayOfOne(init, id, initial, i);
    }
  }

  /** An element no write names keeps its display. */
  lemma {:induction false} LastDisplayOfNone(writes: seq<Style>, id: string, initial: string)
    requires forall k :: 0 <= k < |writes| ==> writes[k].id != id
    ensures LastDisplay(writes, id, initial) == initial
  {
    if writes != [] {
      var init := writes[..|writes| - 1];
      forall k | 0 <= k < |init| ensures init[k].id != id { assert init[k] == writes[k]; }
      LastDisplayOfNone(init, id, initial);
    }
  }

  /** The counter's first loop: show `ids[0]` .. `ids[n - 1]`; with n past
      the end it reaches `ids[ids.length]`, whose id is "undefined". */
  function ShowWrites(d: Descriptor, n: int): (writes: seq<Style>)
  {
    var shown := if n > 0 then n else 0;
    seq(shown, i requires 0 <= i < shown => Style(IdAt(d, i), ""))
  }

  /** The counter's second loop: hide `ids[n]` .. `ids[ids.length - 1]`;
      with n negative it starts before the first id. */
  function HideWrites(d: Descriptor, n: int): (writes: seq<Style>)
  {
    var hidden := match LengthOf(d) case Some(len) => (if len > n then len - n else 0) case None => 0;
    seq(hidden, k requires 0 <= k < hidden => Style(IdAt(d, n + k), "none"))
  }

  /** The writes of the counter handler for a count n. */
  function CounterWrites(d: Descriptor, n: int): seq<Style>
  {
    ShowWrites(d, n) + HideWrites(d, n)
  }

  /** The switch's loop: every entry's element is shown when its key equals
      the cell value and hidden otherwise, in key order. */
  function SwitchWrites(t: Dict<string>, value: Option<string>): seq<Style>
  {
    seq(|t|, k requires 0 <= k < |t| => Style(t[k].value, if Some(t[k].key) == value then "" else "none"))
  }

  predicate Distinct(ids: seq<string>)
  {
    forall i, j :: 0 <= i < j < |ids| ==> ids[i] != ids[j]
  }

  /** A run whose writes name distinct elements that all exist: each
      element named takes the display of its write, every other element is
      unchanged, no element comes or goes and the run does not stop. */
  lemma PerformDistinct(e: Elements, writes: seq<Style>)
    requires AllPresent(e, writes)
    requires forall i, j :: 0 <= i < j < |writes| ==> writes[i].id != writes[j].id
    ensures var o := Perform(e, writes);
      && o.missing.None? && o.elements.Keys == e.Keys
      && (forall i :: 0 <= i < |writes| ==> o.elements[writes[i].id] == e[writes[i].id].(display := writes[i].display))
      && (forall id :: id in e && (forall i :: 0 <= i < |writes| ==> writes[i].id != id) ==> o.elements[id] == e[id])
  {
    PerformDisplays(e, writes);
    forall i | 0 <= i < |writes|
      ensures LastDisplay(writes, writes[i].id, e[writes[i].id].display) == writes[i].display
    {
      LastDisplayOfOne(writes, writes[i].id, e[writes[i].id].display, i);
    }
    forall id | id in e && (forall i :: 0 <= i < |writes| ==> writes[i].id != id)
      ensures LastDisplay(writes, id, e[id].display) == e[id].display
    {
      LastDisplayOfNone(writes, id, e[id].display);
    }
  }

  /** For 0 <= n <= ids.length the counter writes each id once, in order:
      shown below n, hidden from n on. */
  lemma CounterWritesOfIds(ids: seq<string>, n: int)
    requires 0 <= n <= |ids|
    ensures var writes := CounterWrites(Ids(ids), n);
      && |writes| == |ids|
      && forall i :: 0 <= i < |ids| ==> writes[i] == Style(ids[i], if i < n then "" else "none")
  {
    var shows, hides := ShowWrites(Ids(ids), n), HideWrites(Ids(ids), n);
    var writes := shows + hides;
    assert |shows| == n && |hides| == |ids| - n;
    forall i | 0 <= i < |ids| ensures writes[i] == Style(ids[i], if i < n then "" else "none") {
      if i < n {
        assert writes[i] == shows[i];
      } else {
        assert writes[i] == hides[i - n] == Style(IdAt(Ids(ids), n + (i - n)), "none");
      }
    }
  }

  /** A counter of n tallies, 0 <= n <= ids.length, over distinct elements
      that all exist: the first n are shown, the rest hidden, nothing else
      changes and the run does not stop. */
  lemma CounterShowsFirst(e: Elements, ids: seq<string>, n: int)
    requires 0 <= n <= |ids| && Distinct(ids)
    requires forall i :: 0 <= i < |ids| ==> ids[i] in e
    ensures var o := Perform(e, CounterWrites(Ids(ids), n));
      && o.missing.None? && o.elements.Keys == e.Keys
      && (forall i :: 0 <= i < |ids| ==> o.elements[ids[i]] == e[ids[i]].(display := if i < n then "" else "none"))
      && (forall id :: id in e && id !in ids ==> o.elements[id] == e[id])
  {
    var writes := CounterWrites(Ids(ids), n);
    CounterWritesOfIds(ids, n);
    PerformDistinct(e, writes);
  }

  /** A counter asked for more tallies than it has ids, when there is no
      element with id "undefined": every tally is shown, none is hidden, and
      the run stops at `ids[ids.length]`. */
  lemma CounterOverflowStops(e: Elements, ids: seq<string>, n: int)
    requires n > |ids| && "undefined" !in e
    requires forall i :: 0 <= i < |ids| ==> ids[i] in e
    ensures var o := Perform(e, CounterWrites(Ids(ids), n));
      && o.missing == Some("undefined")
      && o.elements == Perform(e, seq(|ids|, i requires 0 <= i < |ids| => Style(ids[i], ""))).elements
  {
    var shows := ShowWrites(Ids(ids), n);
    var writes := shows + HideWrites(Ids(ids), n);
    var k := |ids|;
    assert |shows| == n;
    assert writes[k] == shows[k] == Style("undefined", "");
    assert writes[..k] == seq(|ids|, i requires 0 <= i < |ids| => Style(ids[i], ""));
    assert AllPresent(e, writes[..k]);
    assert forall j :: 0 <= j < k ==> writes[j].id in e;
    PerformStops(e, writes);
  }

  /** A switch over distinct elements that all exist: the element of every
      key equal to the value is shown, every other one hidden, nothing else
      changes and the run does not stop. */
  lemma SwitchShowsMatching(e: Elements, t: Dict<string>, value: Option<string>)
    requires forall k :: 0 <= k < |t| ==> t[k].value in e
    requires forall i, j :: 0 <= i < j < |t| ==> t[i].value != t[j].value
    ensures var o := Perform(e, SwitchWrites(t, value));
      && o.missing.None? && o.elements.Keys == e.Keys
      && (forall k :: 0 <= k < |t| ==> o.elements[t[k].value] == e[t[k].value].(display := if Some(t[k].key) == value then "" else "none"))
      && (forall id :: id in e && (forall k :: 0 <= k < |t| ==> t[k].value != id) ==> o.elements[id] == e[id])
  {
    var writes := SwitchWrites(t, value);
    PerformDistinct(e, writes);
    forall k | 0 <= k < |t|
      ensures Perform(e, writes).elements[t[k].value] == e[t[k].value].(display := if Some(t[k].key) == value then "" else "none")
    {
      assert writes[k] == Style(t[k].value, if Some(t[k].key) == value then "" else "none");
    }
  }

  /** Some key among the first k + 1 equals the value exactly when one
      among the first k does, or key k does. */
  lemma MatchedStep(t: Dict<string>, value: Option<string>, k: nat)
    requires k < |t|
    ensures (exists j :: 0 <= j < k + 1 && Some(t[j].key) == value) <==>
      (exists j :: 0 <= j < k && Some(t[j].key) == value) || Some(t[k].key) == value
  {
  }

  /** The page: the elements the handlers find by id and change in place. */
  class Document {
    var elements: Elements

    constructor(elements: Elements)
      ensures this.elements == elements
    {
      this.elements := elements;
    }

    /** `element.innerHTML = text`, when the element exists. */
    method SetHtml(id: string, text: string) returns (found: bool)
      modifies this
      ensures found == (id in old(elements))
      ensures elements == if found then old(elements)[id := old(elements)[id].(html := text)] else old(elements)
    {
      found := id in elements;
      if found {
        elements := elements[id := elements[id].(html := text)];
      }
    }

    /** `element.setAttribute("src", url)` (Updater.js assigns `element.src`),
        when the element exists. */
    method SetSrc(id: string, url: string) returns (found: bool)
      modifies this
      ensures found == (id in old(elements))
      ensures elements == if found then old(elements)[id := old(elements)[id].(src := url)] else old(elements)
    {
      found := id in elements;
      if found {
        elements := elements[id := elements[id].(src := url)];
      }
    }

    /** `element.style.display = display`, when the element exists. */
    method SetDisplay(id: string, display: string) returns (found: bool)
      modifies this
      ensures found == (id in old(elements))
      ensures elements == if found then old(elements)[id := old(elements)[id].(display := display)] else old(elements)
    {
      found := id in elements;
      if found {
        elements := elements[id := elements[id].(display := display)];
      }
    }

    /** The counter handler's two loops for a count n. */
    method ShowFirst(d: Descriptor, n: int) returns (missing: Option<string>)
      modifies this
      ensures Outcome(elements, missing) == Perform(old(elements), CounterWrites(d, n))
    {
      PerformAppend(elements, ShowWrites(d, n), HideWrites(d, n));
      missing := ShowTallies(d, n);
      if missing.None? {
        missing := HideTallies(d, n);
      }
    }

    /** The counter's first loop. */
    method ShowTallies(d: Descriptor, n: int) returns (missing: Option<string>)
      modifies this
      ensures Outcome(elements, missing) == Perform(old(elements), ShowWrites(d, n))
    {
      ghost var writes := ShowWrites(d, n);
      var i := 0;
      while i < n
        invariant 0 <= i <= |writes|
        invariant Perform(old(elements), writes) == Perform(elements, writes[i..])
      {
        var id := IdAt(d, i);
        PerformNext(old(elements), writes, i, elements, id, "");
        var found := SetDisplay(id, "");
        if !found {
          return Some(id);
        }
        i := i + 1;
      }
      assert writes[i..] == [];
      missing := None;
    }

    /** The counter's second loop, which runs only when `ids.length` is a number. */
    method HideTallies(d: Descriptor, n: int) returns (missing: Option<string>)
      modifies this
      ensures Outcome(elements, missing) == Perform(old(elements), HideWrites(d, n))
    {
      ghost var writes := HideWrites(d, n);
      var len := LengthOf(d);
      if len.Some? {
        assert |writes| == if len.value > n then len.value - n else 0;
        var i := n;
        while i < len.value
          invariant n <= i && i - n <= |writes|
          invariant Perform(old(elements), writes) == Perform(elements, writes[i - n..])
        {
          var id := IdAt(d, i);
          PerformNext(old(elements), writes, i - n, elements, id, "none");
          var found := SetDisplay(id, "none");
          if !found {
            return Some(id);
          }
          i := i + 1;
        }
        assert writes[i - n..] == [];
      }
      missing := None;
    }

    /** The switch's loop over the keys of t. `switched` records whether a
        key equal to the value was reached. */
    method ShowMatching(t: Dict<string>, value: Option<string>) returns (missing: Option<string>, switched: bool)
      modifies this
      ensures Outcome(elements, missing) == Perform(old(elements), SwitchWrites(t, value))
      ensures missing.None? ==> (switched <==> exists k :: 0 <= k < |t| && Some(t[k].key) == value)
    {
      ghost var writes := SwitchWrites(t, value);
      switched := false;
      var k := 0;
      while k < |t|
        invariant 0 <= k <= |t|
        invariant Perform(old(elements), writes) == Perform(elements, writes[k..])
        invariant switched <==> exists j :: 0 <= j < k && Some(t[j].key) == value
      {
        var id := t[k].value;
        var matches := Some(t[k].key) == value;
        var display := if matches then "" else "none";
        PerformNext(old(elements), writes, k, elements, id, display);
        var found := SetDisplay(id, display);
        if !found {
          return Some(id), switched;
        }
        MatchedStep(t, value, k);
        switched := switched || matches;
        k := k + 1;
      }
      missing := None;
    }
  }
}
