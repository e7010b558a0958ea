/** One scan cycle of `FolderWatcherRunnable.run` over a watched folder:
    each child of the folder is either unknown to the catalog (a new item is
    created and added) or known through one or more items, and every known
    item in status WATCH goes through the stability rule. The catalog is
    saved once at the end when some item changed. Answers of the item,
    checksum and catalog services are inputs, and so is the clock reading
    taken for each item; times are whole seconds. */
module FolderWatcher {
  import opened Wrappers
  import opened Paths

  /** Item status (`StatusEnum`). Only WATCH and TO_SEND take part in this
      rule; every other value is carried by name and never touched. */
  datatype Status = Watch | ToSend | Other(name: string)

  /** What the services report for one WATCH item in one cycle: whether its
      files were added or removed, whether its checksum changed, and the time
      its checksum was last recorded (read after the checksum update). */
  datatype Observation = Observation(filesChanged: bool, checksumChanged: bool, adler32Date: Option<int>)

  /** New status of an item, and whether the item set `someItemChanged`. */
  datatype Transition = Transition(status: Status, changed: bool)

  /** Neither files nor checksum changed, and the checksum has been recorded
      at least `cooldown` seconds before `now`. */
  predicate CooledDown(obs: Observation, now: int, cooldown: int)
  {
    && !obs.filesChanged && !obs.checksumChanged
    && obs.adler32Date.Some? && now - obs.adler32Date.value >= cooldown
  }

  /** The per-item rule of the scan. */
  function Step(status: Status, obs: Observation, now: int, cooldown: int): (r: Transition)
    ensures status != Watch ==> r == Transition(status, false)
    ensures status == Watch && (obs.filesChanged || obs.checksumChanged) ==> r == Transition(Watch, true)
    ensures status == Watch && CooledDown(obs, now, cooldown) ==> r == Transition(ToSend, true)
    ensures status == Watch && !obs.filesChanged && !obs.checksumChanged && !CooledDown(obs, now, cooldown) ==>
      r == Transition(Watch, false)
  {
    if status != Watch then Transition(status, false)
    else if !obs.filesChanged && !obs.checksumChanged then
      match obs.adler32Date
      case None => Transition(status, false)
      case Some(date) =>
        if now - date >= cooldown then Transition(ToSend, true) else Transition(status, false)
    else Transition(status, true)
  }

  /** A status may stay, or move from WATCH to TO_SEND; nothing else. */
  predicate Advances(before: Status, after: Status)
  {
    after == before || (before == Watch && after == ToSend)
  }

  /** The rule only moves forward, and only to TO_SEND once the checksum
      has been stable for the cooldown; it flags a change exactly when it
      moves an item or sees its files or checksum change. */
  lemma StepMeaning(status: Status, obs: Observation, now: int, cooldown: int)
    ensures var r := Step(status, obs, now, cooldown);
      && Advances(status, r.status)
      && (r.status != status ==> CooledDown(obs, now, cooldown))
      && (r.changed <==> status == Watch && (obs.filesChanged || obs.checksumChanged || r.status == ToSend))
  {
  }

  /** Once quiet long enough, an item stays ready at every later time. */
  lemma StepMonotoneInTime(obs: Observation, now: int, later: int, cooldown: int)
    requires now <= later
    requires Step(Watch, obs, now, cooldown).status == ToSend
    ensures Step(Watch, obs, later, cooldown).status == ToSend
  {
  }

  /** The cooldown boundary: quiet for one second less than the cooldown the
      item stays WATCH; quiet for the full cooldown it becomes TO_SEND. */
  lemma CooldownBoundary(date: int, cooldown: int)
    ensures var quiet := Observation(false, false, Some(date));
      && Step(Watch, quiet, date + cooldown - 1, cooldown) == Transition(Watch, false)
      && Step(Watch, quiet, date + cooldown, cooldown) == Transition(ToSend, true)
  {
  }

  /** A catalog item: its source path and status. */
  datatype Item = Item(source: Path, status: Status)

  /** The service answers for one WATCH item together with the clock reading
      taken right after them (`LocalDateTime.now()` is read once per item),
      or an exception from the item or checksum service. */
  datatype Probe = Observed(obs: Observation, now: int) | Raised

  /** An existing catalog item together with what the services report on it. */
  datatype Entry = Entry(item: Item, probe: Probe)

  /** One child of the watched folder, by what the catalog lookup found:
      `Unseen` when it found nothing (`created` is the item the item service
      builds; `checksumRaised` when the checksum request on it throws after
      it was added), `Seen` with the items found, `Failing` when the lookup
      or the creation throws before anything is added. */
  datatype Child = Unseen(created: Item, checksumRaised: bool) | Seen(entries: seq<Entry>) | Failing

  /** An existing item in WATCH whose services throw. */
  predicate EntryRaises(e: Entry)
  {
    e.item.status == Watch && e.probe.Raised?
  }

  /** An existing item that sets `someItemChanged`. */
  predicate EntryChanges(e: Entry, cooldown: int)
  {
    e.item.status == Watch && e.probe.Observed? && Step(Watch, e.probe.obs, e.probe.now, cooldown).changed
  }

  /** How an entry may differ after the scan: same item, same answers, and
      a status that stayed or moved to TO_SEND after the cooldown. */
  predicate EntryStep(e: Entry, e': Entry, cooldown: int)
  {
    && e'.item.source == e.item.source && e'.probe == e.probe
    && Advances(e.item.status, e'.item.status)
    && (e'.item.status != e.item.status ==> e.probe.Observed? && CooledDown(e.probe.obs, e.probe.now, cooldown))
  }

  /** The entry once the rule has run on it: a WATCH item with answers takes
      the status `Step` gives it; every other entry stays as it is. */
  function Stepped(e: Entry, cooldown: int): Entry
  {
    if e.item.status == Watch && e.probe.Observed? then
      Entry(e.item.(status := Step(Watch, e.probe.obs, e.probe.now, cooldown).status), e.probe)
    else e
  }

  /** Some entry before position `j` raises. */
  predicate RaisedBefore(es: seq<Entry>, j: int)
  {
    exists i :: 0 <= i < j && i < |es| && EntryRaises(es[i])
  }

  datatype EntriesPass = EntriesPass(entries: seq<Entry>, changed: bool, raised: bool)

  /** `contains.forEach(...)` over the items found for one child. An
      exception stops the loop; items already handled keep their new status. */
  function ScanEntries(es: seq<Entry>, cooldown: int): (r: EntriesPass)
    ensures |r.entries| == |es|
    ensures forall j :: 0 <= j < |es| ==> EntryStep(es[j], r.entries[j], cooldown)
    ensures r.raised ==> exists j :: 0 <= j < |es| && EntryRaises(es[j])
  {
    if |es| == 0 then EntriesPass([], false, false)
    else
      var e := es[0];
      if e.item.status != Watch then
        var rest := ScanEntries(es[1..], cooldown);
        EntriesPass([e] + rest.entries, rest.changed, rest.raised)
      else match e.probe
        case Raised => EntriesPass(es, false, true)
        case Observed(obs, now) =>
          var t := Step(Watch, obs, now, cooldown);
          var rest := ScanEntries(es[1..], cooldown);
          EntriesPass([Entry(e.item.(status := t.status), e.probe)] + rest.entries, t.changed || rest.changed, rest.raised)
  }

  /** How a child may differ after the scan. */
  predicate ChildStep(c: Child, c': Child, cooldown: int)
  {
    match c
    case Seen(es) =>
      && c'.Seen? && |c'.entries| == |es|
      && forall j :: 0 <= j < |es| ==> EntryStep(es[j], c'.entries[j], cooldown)
    case _ => c' == c
  }

  /** A child whose handling throws. */
  predicate ChildRaises(c: Child)
  {
    match c
    case Failing => true
    case Unseen(_, checksumRaised) => checksumRaised
    case Seen(es) => exists j :: 0 <= j < |es| && EntryRaises(es[j])
  }

  /** A child one of whose items sets `someItemChanged`. */
  predicate ChildChanges(c: Child, cooldown: int)
  {
    c.Seen? && exists j :: 0 <= j < |c.entries| && EntryChanges(c.entries[j], cooldown)
  }

  /** The child once its items went through the loop over them. */
  function ChildAfter(c: Child, cooldown: int): Child
  {
    match c
    case Seen(es) => Seen(ScanEntries(es, cooldown).entries)
    case _ => c
  }

  /** Some child before position `k` raises. */
  predicate ChildRaisedBefore(cs: seq<Child>, k: int)
  {
    exists i :: 0 <= i < k && i < |cs| && ChildRaises(cs[i])
  }

  /** The items the item service creates for the new children among `cs`,
      in order. */
  function CreatedItems(cs: seq<Child>): seq<Item>
  {
    if |cs| == 0 then []
    else (if cs[0].Unseen? then [cs[0].created] else []) + CreatedItems(cs[1..])
  }

  datatype Pass = Pass(children: seq<Child>, added: seq<Item>, changed: bool, raised: bool)

  /** The loop over the folder's children. An exception abandons the
      children not yet handled. */
  function ScanChildren(cs: seq<Child>, cooldown: int): (r: Pass)
    ensures |r.children| == |cs|
    ensures forall k :: 0 <= k < |cs| ==> ChildStep(cs[k], r.children[k], cooldown)
    ensures |r.added| <= |cs|
  {
    if |cs| == 0 then Pass([], [], false, false)
    else match cs[0]
      case Failing => Pass(cs, [], false, true)
      case Unseen(item, checksumRaised) =>
        if checksumRaised then Pass(cs, [item], false, true)
        else
          var rest := ScanChildren(cs[1..], cooldown);
          Pass([cs[0]] + rest.children, [item] + rest.added, rest.changed, rest.raised)
      case Seen(es) =>
        var p := ScanEntries(es, cooldown);
        if p.raised then Pass([Seen(p.entries)] + cs[1..], [], false, true)
        else
          var rest := ScanChildren(cs[1..], cooldown);
          Pass([Seen(p.entries)] + rest.children, rest.added, p.changed || rest.changed, rest.raised)
  }

  /** Outcome of one `run`: the children with their items' new statuses,
      the items added to the catalog, and whether `save()` was called. */
  datatype CycleResult = CycleResult(children: seq<Child>, added: seq<Item>, saved: bool)

  /** `run()`: a missing folder is only logged; otherwise the children are
      scanned and the catalog saved once, after all of them, if some item
      changed and no exception cut the scan short. On an existing folder the
      children before the first one that raises, and that one, have had
      their items run through the rule, the later ones are untouched, and
      the items created for the new children among those handled are added
      in order. */
  function Cycle(folderExists: bool, cs: seq<Child>, cooldown: int): (r: CycleResult)
    ensures !folderExists ==> r == CycleResult(cs, [], false)
    ensures |r.children| == |cs|
    ensures forall k :: 0 <= k < |cs| ==> ChildStep(cs[k], r.children[k], cooldown)
    ensures folderExists ==> forall k :: 0 <= k < |cs| ==>
      r.children[k] == if ChildRaisedBefore(cs, k) then cs[k] else ChildAfter(cs[k], cooldown)
    ensures folderExists && (forall k :: 0 <= k < |cs| ==> !ChildRaises(cs[k])) ==> r.added == CreatedItems(cs)
    ensures folderExists ==> forall k :: 0 <= k < |cs| && ChildRaises(cs[k]) && !ChildRaisedBefore(cs, k) ==>
      r.added == CreatedItems(cs[..k + 1])
  {
    if !folderExists then CycleResult(cs, [], false)
    else
      ScanChildrenEffect(cs, cooldown);
      ScanChildrenAdded(cs, cooldown);
      ScanChildrenFlags(cs, cooldown);
      var p := ScanChildren(cs, cooldown);
      CycleResult(p.children, p.added, p.changed && !p.raised)
  }

  /** The loop over one child's items raises exactly when one of its WATCH
      items raises, and otherwise flags a change exactly when one of them
      changes. */
  lemma {:induction false} ScanEntriesFlags(es: seq<Entry>, cooldown: int)
    ensures ScanEntries(es, cooldown).raised <==> exists j :: 0 <= j < |es| && EntryRaises(es[j])
    ensures !ScanEntries(es, cooldown).raised ==>
      (ScanEntries(es, cooldown).changed <==> exists j :: 0 <= j < |es| && EntryChanges(es[j], cooldown))
  {
    if |es| > 0 {
      ScanEntriesFlags(es[1..], cooldown);
      var e := es[0];
      assert forall j :: 1 <= j < |es| ==> es[j] == es[1..][j - 1];
      if !(e.item.status == Watch && e.probe.Raised?) {
        if (exists j :: 0 <= j < |es| && EntryRaises(es[j])) {
          var j :| 0 <= j < |es| && EntryRaises(es[j]);
          assert j > 0 && EntryRaises(es[1..][j - 1]);
        }
        if (exists j :: 1 <= j < |es| && EntryChanges(es[j], cooldown)) {
          var j :| 1 <= j < |es| && EntryChanges(es[j], cooldown);
          assert EntryChanges(es[1..][j - 1], cooldown);
        }
      }
    }
  }

  /** One loop step over a child's items: the first item is handled, and
      the rest only when it did not raise. */
  lemma ScanEntriesHead(es: seq<Entry>, cooldown: int)
    requires |es| > 0
    ensures var r := ScanEntries(es, cooldown);
      && (EntryRaises(es[0]) ==> r.raised && r.entries == es)
      && (!EntryRaises(es[0]) ==>
            && r.entries == [Stepped(es[0], cooldown)] + ScanEntries(es[1..], cooldown).entries
            && r.raised == ScanEntries(es[1..], cooldown).raised)
  {
  }

  /** An item raising before position `j` of `es` is one raising before
      position `j - 1` of its tail, when the first item does not raise. */
  lemma RaisedBeforeTail(es: seq<Entry>, j: int)
    requires 0 < j <= |es| && !EntryRaises(es[0])
    ensures RaisedBefore(es, j) == RaisedBefore(es[1..], j - 1)
  {
    if RaisedBefore(es, j) {
      var i :| 0 <= i < j && i < |es| && EntryRaises(es[i]);
      assert i > 0 && es[1..][i - 1] == es[i];
    }
    if RaisedBefore(es[1..], j - 1) {
      var i :| 0 <= i < j - 1 && i < |es| - 1 && EntryRaises(es[1..][i]);
      assert es[i + 1] == es[1..][i];
    }
  }

  /** What the loop over one child's items leaves: every item before the
      first one that raises has gone through the rule, and that item and
      every later one are untouched. */
  lemma {:induction false} ScanEntriesEffect(es: seq<Entry>, cooldown: int)
    ensures forall j :: 0 <= j < |es| ==>
      ScanEntries(es, cooldown).entries[j] == if RaisedBefore(es, j) then es[j] else Stepped(es[j], cooldown)
  {
    if |es| > 0 {
      var r := ScanEntries(es, cooldown);
      ScanEntriesHead(es, cooldown);
      if EntryRaises(es[0]) {
        forall j | 0 < j < |es|
          ensures RaisedBefore(es, j)
        {
          assert EntryRaises(es[0]);
        }
      } else {
        ScanEntriesEffect(es[1..], cooldown);
        forall j | 0 < j < |es|
          ensures r.entries[j] == if RaisedBefore(es, j) then es[j] else Stepped(es[j], cooldown)
        {
          RaisedBeforeTail(es, j);
          assert es[1..][j - 1] == es[j];
        }
      }
    }
  }

  /** With no exception, every item of the child has gone through the rule. */
  lemma AllEntriesStepped(es: seq<Entry>, cooldown: int)
    ensures !ScanEntries(es, cooldown).raised ==>
      forall j :: 0 <= j < |es| ==> ScanEntries(es, cooldown).entries[j] == Stepped(es[j], cooldown)
  {
    ScanEntriesEffect(es, cooldown);
    ScanEntriesFlags(es, cooldown);
  }

  /** The loop over the children raises exactly when some child raises, and
      otherwise flags a change exactly when some item of a known child
      changes; new children never flag one. */
  lemma {:induction false} ScanChildrenFlags(cs: seq<Child>, cooldown: int)
    ensures ScanChildren(cs, cooldown).raised <==> exists k :: 0 <= k < |cs| && ChildRaises(cs[k])
    ensures !ScanChildren(cs, cooldown).raised ==>
      (ScanChildren(cs, cooldown).changed <==> exists k :: 0 <= k < |cs| && ChildChanges(cs[k], cooldown))
  {
    if |cs| > 0 {
      ScanChildrenFlags(cs[1..], cooldown);
      assert forall k :: 1 <= k < |cs| ==> cs[k] == cs[1..][k - 1];
      if cs[0].Seen? {
        ScanEntriesFlags(cs[0].entries, cooldown);
      }
      if !ChildRaises(cs[0]) {
        if (exists k :: 0 <= k < |cs| && ChildRaises(cs[k])) {
          var k :| 0 <= k < |cs| && ChildRaises(cs[k]);
          assert k > 0 && ChildRaises(cs[1..][k - 1]);
        }
        if (exists k :: 1 <= k < |cs| && ChildChanges(cs[k], cooldown)) {
          var k :| 1 <= k < |cs| && ChildChanges(cs[k], cooldown);
          assert ChildChanges(cs[1..][k - 1], cooldown);
        }
      }
    }
  }

  /** One loop step over the children: the first child is handled, and the
      rest are scanned only when it did not raise. */
  lemma ScanChildrenHead(cs: seq<Child>, cooldown: int)
    requires |cs| > 0
    ensures var r, c := ScanChildren(cs, cooldown), cs[0];
      var head := if c.Unseen? then [c.created] else [];
      && (ChildRaises(c) ==> r.raised && r.children == [ChildAfter(c, cooldown)] + cs[1..] && r.added == head)
      && (!ChildRaises(c) ==>
            && r.children == [ChildAfter(c, cooldown)] + ScanChildren(cs[1..], cooldown).children
            && r.added == head + ScanChildren(cs[1..], cooldown).added
            && r.raised == ScanChildren(cs[1..], cooldown).raised)
  {
    if cs[0].Seen? {
      ScanEntriesFlags(cs[0].entries, cooldown);
    }
  }

  /** A child raising before position `k` of `cs` is one raising before
      position `k - 1` of its tail, when the first child does not raise. */
  lemma ChildRaisedBeforeTail(cs: seq<Child>, k: int)
    requires 0 < k <= |cs| && !ChildRaises(cs[0])
    ensures ChildRaisedBefore(cs, k) == ChildRaisedBefore(cs[1..], k - 1)
  {
    if ChildRaisedBefore(cs, k) {
      var i :| 0 <= i < k && i < |cs| && ChildRaises(cs[i]);
      assert i > 0 && cs[1..][i - 1] == cs[i];
    }
    if ChildRaisedBefore(cs[1..], k - 1) {
      var i :| 0 <= i < k - 1 && i < |cs| - 1 && ChildRaises(cs[1..][i]);
      assert cs[i + 1] == cs[1..][i];
    }
  }

  /** What the loop over the children leaves: every child before the first
      one that raises has had its items run through the rule, that child's
      items too, and every later child is untouched. */
  lemma {:induction false} ScanChildrenEffect(cs: seq<Child>, cooldown: int)
    ensures forall k :: 0 <= k < |cs| ==>
      ScanChildren(cs, cooldown).children[k] == if ChildRaisedBefore(cs, k) then cs[k] else ChildAfter(cs[k], cooldown)
  {
    if |cs| > 0 {
      var r := ScanChildren(cs, cooldown);
      ScanChildrenHead(cs, cooldown);
      if ChildRaises(cs[0]) {
        forall k | 0 < k < |cs|
          ensures ChildRaisedBefore(cs, k)
        {
          assert ChildRaises(cs[0]);
        }
      } else {
        ScanChildrenEffect(cs[1..], cooldown);
        forall k | 0 < k < |cs|
          ensures r.children[k] == if ChildRaisedBefore(cs, k) then cs[k] else ChildAfter(cs[k], cooldown)
        {
          ChildRaisedBeforeTail(cs, k);
          assert cs[1..][k - 1] == cs[k];
        }
      }
    }
  }

  /** The items the loop adds to the catalog: one per new child, in order,
      for every child up to and including the first one that raises, and
      for all of them when none raises. */
  lemma {:induction false} ScanChildrenAdded(cs: seq<Child>, cooldown: int)
    ensures !ScanChildren(cs, cooldown).raised ==> ScanChildren(cs, cooldown).added == CreatedItems(cs)
    ensures forall k :: 0 <= k < |cs| && ChildRaises(cs[k]) && !ChildRaisedBefore(cs, k) ==>
      ScanChildren(cs, cooldown).added == CreatedItems(cs[..k + 1])
  {
    if |cs| > 0 {
      var r := ScanChildren(cs, cooldown);
      ScanChildrenHead(cs, cooldown);
      var head := if cs[0].Unseen? then [cs[0].created] else [];
      assert CreatedItems(cs[..1]) == head by {
        assert cs[..1][1..] == [];
      }
      if ChildRaises(cs[0]) {
        forall k | 0 < k < |cs| && ChildRaises(cs[k])
          ensures ChildRaisedBefore(cs, k)
        {
          assert ChildRaises(cs[0]);
        }
      } else {
        ScanChildrenAdded(cs[1..], cooldown);
        forall k | 0 < k < |cs| && ChildRaises(cs[k]) && !ChildRaisedBefore(cs, k)
          ensures r.added == CreatedItems(cs[..k + 1])
        {
          ChildRaisedBeforeTail(cs, k);
          assert cs[1..][k - 1] == cs[k];
          assert cs[..k + 1][1..] == cs[1..][..k];
        }
      }
    }
  }

  /** A WATCH item of a known child whose files and checksum stayed quiet
      for the cooldown is TO_SEND after the cycle, unless an exception
      earlier in the scan stopped it first. */
  lemma QuietItemSent(cs: seq<Child>, k: nat, j: nat, cooldown: int)
    requires k < |cs| && cs[k].Seen? && j < |cs[k].entries|
    requires !ChildRaisedBefore(cs, k) && !RaisedBefore(cs[k].entries, j)
    requires cs[k].entries[j].item.status == Watch && cs[k].entries[j].probe.Observed?
    requires CooledDown(cs[k].entries[j].probe.obs, cs[k].entries[j].probe.now, cooldown)
    ensures Cycle(true, cs, cooldown).children[k].entries[j].item.status == ToSend
  {
    ScanEntriesEffect(cs[k].entries, cooldown);
  }

  /** `save()` is called exactly when the folder exists, no child raised,
      and some existing item changed. */
  lemma SavedIffSomeItemChanged(folderExists: bool, cs: seq<Child>, cooldown: int)
    ensures Cycle(folderExists, cs, cooldown).saved <==>
      && folderExists
      && (forall k :: 0 <= k < |cs| ==> !ChildRaises(cs[k]))
      && (exists k :: 0 <= k < |cs| && ChildChanges(cs[k], cooldown))
  {
    ScanChildrenFlags(cs, cooldown);
  }

  /** A cycle that only meets new children adds one item per child, in
      order, and does not save. */
  lemma NewChildrenOnlyAdd(cs: seq<Child>, cooldown: int)
    requires forall k :: 0 <= k < |cs| ==> cs[k].Unseen? && !cs[k].checksumRaised
    ensures ScanChildren(cs, cooldown).added == seq(|cs|, k requires 0 <= k < |cs| => cs[k].created)
    ensures !ScanChildren(cs, cooldown).changed
    ensures !Cycle(true, cs, cooldown).saved
  {
    NewChildrenScan(cs, cooldown);
  }

  /** The loop over new children only: one created item per child, and no
      change flagged. */
  lemma {:induction false} NewChildrenScan(cs: seq<Child>, cooldown: int)
    requires forall k :: 0 <= k < |cs| ==> cs[k].Unseen? && !cs[k].checksumRaised
    ensures ScanChildren(cs, cooldown).added == seq(|cs|, k requires 0 <= k < |cs| => cs[k].created)
    ensures !ScanChildren(cs, cooldown).changed
  {
    if |cs| > 0 {
      var tail := cs[1..];
      assert forall k :: 0 <= k < |tail| ==> tail[k] == cs[k + 1];
      NewChildrenScan(tail, cooldown);
      var rest := ScanChildren(tail, cooldown);
      var r := ScanChildren(cs, cooldown);
      assert r.added == [cs[0].created] + rest.added && r.changed == rest.changed;
    }
  }

  /** A child that raises leaves every later child untouched and rules the
      save out. */
  lemma RaiseAbandonsRest(cs: seq<Child>, k: nat, cooldown: int)
    requires k < |cs| && ChildRaises(cs[k])
    ensures ScanChildren(cs, cooldown).raised
    ensures ScanChildren(cs, cooldown).children[k + 1..] == cs[k + 1..]
    ensures !Cycle(true, cs, cooldown).saved
  {
    ScanChildrenFlags(cs, cooldown);
    RaiseKeepsLater(cs, k, cooldown);
  }

  /** The children after one that raises come back as they were. */
  lemma RaiseKeepsLater(cs: seq<Child>, k: nat, cooldown: int)
    requires k < |cs| && ChildRaises(cs[k])
    ensures ScanChildren(cs, cooldown).children[k + 1..] == cs[k + 1..]
  {
    var r := ScanChildren(cs, cooldown);
    ScanChildrenEffect(cs, cooldown);
    forall j | k < j < |cs|
      ensures r.children[j] == cs[j]
    {
      assert ChildRaises(cs[k]);
      assert ChildRaisedBefore(cs, j);
    }
    assert r.children[k + 1..] == cs[k + 1..];
  }
}
