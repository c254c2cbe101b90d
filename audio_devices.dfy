/**
  The input-device list of the audio service and the resolution of a stored
  device id: ALSA-style names are filtered, renamed after their card,
  deduplicated by display name (first seen wins) and sorted with the system
  default first.
 */
module AudioDevices {
  import opened Wrappers
  import opened Strings

  /** One entry of the device list. */
  datatype DeviceInfo = DeviceInfo(id: string, displayName: string)

  const DefaultId: string := "default"
  const DefaultDisplay: string := "Sistem Varsayılanı (Pulse/Pipewire)"

  /** The entry for the system default device that heads every list. */
  const DefaultEntry: DeviceInfo := DeviceInfo(DefaultId, DefaultDisplay)

  // ---------------------------------------------------------------------------
  // Filtering and naming

  /** Plugin and raw-hardware devices that are never listed, and the literal
      `default` device, which the fixed first entry stands for. */
  predicate Excluded(id: string) {
    var lower := ToLower(id);
    StartsWith(lower, "hw:") ||
    Contains(lower, "dmix") || Contains(lower, "dsnoop") || Contains(lower, "surround") ||
    Contains(lower, "front") || Contains(lower, "rear") || Contains(lower, "center") ||
    Contains(lower, "side") || Contains(lower, "iec958") || Contains(lower, "hdmi") ||
    Contains(lower, "null") || id == DefaultId
  }

  /** Only the `sysdefault` and `plughw` devices count as reliable. */
  predicate Reliable(id: string) {
    var lower := ToLower(id);
    Contains(lower, "sysdefault") || Contains(lower, "plughw")
  }

  /** The device passes the filter. */
  predicate Keep(id: string) {
    !Excluded(id) && Reliable(id)
  }

  /** The card name of an id: the text after the first `CARD=` up to the
      next `,`, the next `CARD=` or the end of the id. */
  function CardName(id: string): (r: Option<string>)
    ensures r.None? <==> !Contains(id, "CARD=")
    ensures r.Some? ==> ',' !in r.value && !Contains(r.value, "CARD=")
    ensures r.Some? ==>
              var start, end := Find(id, "CARD=").value + 5, Find(id, "CARD=").value + 5 + |r.value|;
              end <= |id| && id[start..end] == r.value &&
              (end == |id| || id[end] == ',' || OccursAt(id, "CARD=", end)) &&
              forall k: nat :: start <= k < end ==> !OccursAt(id, "CARD=", k)
  {
    match SecondField(id, "CARD=")
    case None => None
    case Some(field) =>
      var card := FirstField(field, ',');
      PrefixKeepsAbsence(field, card, "CARD=");
      assert field[..|card|] == card;
      Some(card)
  }

  /** Display name of a kept device: its card name with a suffix saying which
      kind of device it is, or the raw id when it names no card. */
  function CleanName(id: string): (r: string)
    ensures CardName(id).None? ==> r == id
    ensures CardName(id).Some? && Contains(ToLower(id), "sysdefault") ==> r == CardName(id).value + " (System Default)"
    ensures CardName(id).Some? && !Contains(ToLower(id), "sysdefault") ==> r == CardName(id).value + " (Direct/Plug)"
  {
    match CardName(id)
    case None => id
    case Some(card) =>
      if Contains(ToLower(id), "sysdefault") then card + " (System Default)" else card + " (Direct/Plug)"
  }

  /** Renaming changes exactly the ids that name a card: an id without
      `CARD=` is shown as it is, and a card's display name never equals the
      raw id. */
  lemma CleanNameKeepsOnlyPlainIds(id: string)
    ensures CleanName(id) == id <==> !Contains(id, "CARD=")
  {
    match CardName(id)
    case None =>
    case Some(card) =>
      var suffix := if Contains(ToLower(id), "sysdefault") then " (System Default)" else " (Direct/Plug)";
      assert '=' !in suffix;
      AppendedDiffers(id, "CARD=", Find(id, "CARD=").value, card, suffix);
  }

  // ---------------------------------------------------------------------------
  // Collection

  /** The list under construction and the set of display names used so far. */
  datatype Collection = Collection(list: seq<DeviceInfo>, seen: set<string>)

  /** The list before any device is visited. */
  const Initial: Collection := Collection([DefaultEntry], {DefaultDisplay})

  /** Visiting one enumerated device; `None` is a device whose name cannot be read. */
  function Visit(c: Collection, name: Option<string>): Collection {
    match name
    case None => c
    case Some(id) =>
      if !Keep(id) then c
      else
        var clean := CleanName(id);
        if clean in c.seen then c
        else Collection(c.list + [DeviceInfo(id, clean)], c.seen + {clean})
  }

  /** The collection after visiting `names` in order. */
  function Collected(names: seq<Option<string>>): Collection {
    if |names| == 0 then Initial else Visit(Collected(names[..|names| - 1]), names[|names| - 1])
  }

  /** The id of the first kept device in `names` whose display name is `clean`. */
  function FirstWithName(names: seq<Option<string>>, clean: string): Option<string> {
    if |names| == 0 then None
    else match FirstWithName(names[..|names| - 1], clean)
      case Some(id) => Some(id)
      case None =>
        match names[|names| - 1]
        case Some(id) => if Keep(id) && CleanName(id) == clean then Some(id) else None
        case None => None
  }

  ghost function DisplayNames(list: seq<DeviceInfo>): set<string> {
    set i | 0 <= i < |list| :: list[i].displayName
  }

  /** No two entries share a display name. */
  ghost predicate DistinctNames(list: seq<DeviceInfo>) {
    forall i, j :: 0 <= i < |list| && 0 <= j < |list| && i != j ==> list[i].displayName != list[j].displayName
  }

  /** What every entry of the list is: the default entry, or a kept device of
      the input renamed by `CleanName`, the first one seen with that name. */
  ghost predicate EntryOk(e: DeviceInfo, names: seq<Option<string>>) {
    e == DefaultEntry ||
    (e.id != DefaultId && Some(e.id) in names && Keep(e.id) && e.displayName == CleanName(e.id) &&
     FirstWithName(names, e.displayName) == Some(e.id))
  }

  /** The properties the collection loop keeps. */
  ghost predicate CollectionOk(c: Collection, names: seq<Option<string>>) {
    |c.list| >= 1 && c.list[0] == DefaultEntry &&
    c.seen == DisplayNames(c.list) &&
    DistinctNames(c.list) &&
    (forall i :: 0 <= i < |c.list| ==> EntryOk(c.list[i], names)) &&
    (forall clean :: FirstWithName(names, clean).Some? ==> clean in c.seen)
  }

  lemma {:induction false} CollectedOk(names: seq<Option<string>>)
    ensures CollectionOk(Collected(names), names)
  {
    if |names| == 0 {
      var one := [DefaultEntry];
      assert one[0].displayName == DefaultDisplay;
      assert DisplayNames(one) == {DefaultDisplay};
    } else {
      var prefix, name := names[..|names| - 1], names[|names| - 1];
      assert names == prefix + [name];
      CollectedOk(prefix);
      VisitOk(Collected(prefix), prefix, name);
    }
  }

  /** Whether the device `name` is the kept device with display name `clean`. */
  predicate Names(name: Option<string>, clean: string) {
    name.Some? && Keep(name.value) && CleanName(name.value) == clean
  }

  /** Visiting one more device changes the first owner of a display name only
      when the name had none. */
  lemma FirstWithNameStep(prefix: seq<Option<string>>, name: Option<string>, clean: string)
    ensures FirstWithName(prefix + [name], clean) ==
      if FirstWithName(prefix, clean).Some? then FirstWithName(prefix, clean)
      else if Names(name, clean) then Some(name.value) else None
  {
    var names := prefix + [name];
    assert names[..|names| - 1] == prefix;
  }

  lemma EntriesStayOk(list: seq<DeviceInfo>, prefix: seq<Option<string>>, name: Option<string>)
    requires forall i :: 0 <= i < |list| ==> EntryOk(list[i], prefix)
    ensures forall i :: 0 <= i < |list| ==> EntryOk(list[i], prefix + [name])
  {
    forall i | 0 <= i < |list|
      ensures EntryOk(list[i], prefix + [name])
    {
      var e := list[i];
      if e != DefaultEntry {
        FirstWithNameStep(prefix, name, e.displayName);
        assert Some(e.id) in prefix + [name];
      }
    }
  }

  lemma VisitOk(c: Collection, prefix: seq<Option<string>>, name: Option<string>)
    requires CollectionOk(c, prefix)
    ensures CollectionOk(Visit(c, name), prefix + [name])
  {
    var names := prefix + [name];
    var c' := Visit(c, name);
    EntriesStayOk(c.list, prefix, name);
    if c' == c {
      forall clean | FirstWithName(names, clean).Some?
        ensures clean in c.seen
      {
        FirstWithNameStep(prefix, name, clean);
      }
    } else {
      AppendOk(c, prefix, name);
    }
  }

  lemma AppendOk(c: Collection, prefix: seq<Option<string>>, name: Option<string>)
    requires CollectionOk(c, prefix)
    requires forall i :: 0 <= i < |c.list| ==> EntryOk(c.list[i], prefix + [name])
    requires Visit(c, name) != c
    ensures CollectionOk(Visit(c, name), prefix + [name])
  {
    var names := prefix + [name];
    var id := name.value;
    var clean := CleanName(id);
    var entry := DeviceInfo(id, clean);
    var list' := c.list + [entry];
    assert Visit(c, name) == Collection(list', c.seen + {clean});
    FirstWithNameStep(prefix, name, clean);
    assert EntryOk(entry, names) by {
      assert Some(id) == names[|names| - 1];
    }
    assert DisplayNames(list') == DisplayNames(c.list) + {clean} by {
      assert list'[|c.list|].displayName == clean;
      forall x | x in DisplayNames(c.list)
        ensures x in DisplayNames(list')
      {
        var i :| 0 <= i < |c.list| && c.list[i].displayName == x;
        assert list'[i] == c.list[i];
      }
    }
    forall i | 0 <= i < |c.list|
      ensures c.list[i].displayName != clean
    {
      assert c.list[i].displayName in DisplayNames(c.list);
    }
    forall clean' | FirstWithName(names, clean').Some?
      ensures clean' in c.seen + {clean}
    {
      FirstWithNameStep(prefix, name, clean');
    }
  }

  /** The collection loop of `get_professional_device_list`, in place on a
      list and a set of seen names. */
  method CollectDevices(names: seq<Option<string>>) returns (list: seq<DeviceInfo>, seen: set<string>)
    ensures Collection(list, seen) == Collected(names)
  {
    list, seen := [DefaultEntry], {DefaultDisplay};
    for i := 0 to |names|
      invariant Collection(list, seen) == Collected(names[..i])
    {
      assert names[..i + 1][..i] == names[..i];
      match names[i]
      case None =>
      case Some(id) =>
        if Keep(id) {
          var clean := CleanName(id);
          if clean !in seen {
            list := list + [DeviceInfo(id, clean)];
            seen := seen + {clean};
          }
        }
    }
    assert names[..|names|] == names;
  }

  // ---------------------------------------------------------------------------
  // Ordering and sorting

  /** `a <= b` in the lexicographic order of `String::cmp`: character by character. */
  predicate LexLe(a: string, b: string) {
    if |a| == 0 then true
    else if |b| == 0 then false
    else if a[0] != b[0] then a[0] < b[0]
    else LexLe(a[1..], b[1..])
  }

  lemma {:induction false} LexLeTotal(a: string, b: string)
    ensures LexLe(a, b) || LexLe(b, a)
  {
    if |a| > 0 && |b| > 0 && a[0] == b[0] {
      LexLeTotal(a[1..], b[1..]);
    }
  }

  lemma {:induction false} LexLeAntisymmetric(a: string, b: string)
    requires LexLe(a, b) && LexLe(b, a)
    ensures a == b
  {
    if |a| > 0 && |b| > 0 {
      LexLeAntisymmetric(a[1..], b[1..]);
      assert a == [a[0]] + a[1..] && b == [b[0]] + b[1..];
    }
  }

  lemma {:induction false} LexLeTransitive(a: string, b: string, c: string)
    requires LexLe(a, b) && LexLe(b, c)
    ensures LexLe(a, c)
  {
    if |a| > 0 && |b| > 0 && |c| > 0 && a[0] == b[0] && b[0] == c[0] {
      LexLeTransitive(a[1..], b[1..], c[1..]);
    }
  }

  /** `x` may stand before `y`: the comparator of the sort, which puts the
      entry with id `default` before every other and orders the rest by
      display name. */
  predicate Before(x: DeviceInfo, y: DeviceInfo) {
    if x.id == DefaultId then true
    else if y.id == DefaultId then false
    else LexLe(x.displayName, y.displayName)
  }

  lemma BeforeTotal(x: DeviceInfo, y: DeviceInfo)
    ensures Before(x, y) || Before(y, x)
  {
    LexLeTotal(x.displayName, y.displayName);
  }

  lemma BeforeTransitive(x: DeviceInfo, y: DeviceInfo, z: DeviceInfo)
    requires Before(x, y) && Before(y, z)
    ensures Before(x, z)
  {
    if x.id != DefaultId && y.id != DefaultId && z.id != DefaultId {
      LexLeTransitive(x.displayName, y.displayName, z.displayName);
    }
  }

  ghost predicate Sorted(s: seq<DeviceInfo>) {
    forall i, j :: 0 <= i < j < |s| ==> Before(s[i], s[j])
  }

  /** `list.sort_by(...)`: sorts in place by `Before`, as a permutation that
      keeps display names distinct when they were. Rust's stable sort and this
      insertion sort agree here, since `Before` is a total order on a list
      with one default entry and distinct names. */
  method SortDevices(a: array<DeviceInfo>)
    modifies a
    ensures Sorted(a[..])
    ensures multiset(a[..]) == multiset(old(a[..]))
    ensures DistinctNames(old(a[..])) ==> DistinctNames(a[..])
  {
    if a.Length == 0 {
      return;
    }
    for i := 1 to a.Length
      invariant Sorted(a[..i])
      invariant multiset(a[..]) == multiset(old(a[..]))
    {
      InsertLast(a, i);
    }
    assert a[..a.Length] == a[..];
    DistinctUnderPermutation(old(a[..]), a[..]);
  }

  /** The state of an insertion step: the element at `j` is being moved down;
      every other pair of `s[..i + 1]` is in order, and `s[j]` may stand before
      everything above it. */
  ghost predicate Inserting(s: seq<DeviceInfo>, i: nat, j: nat) {
    j <= i < |s| &&
    (forall k, l :: 0 <= k < l <= i && k != j && l != j ==> Before(s[k], s[l])) &&
    (forall l :: j < l <= i ==> Before(s[j], s[l]))
  }

  lemma InsertStart(s: seq<DeviceInfo>, i: nat)
    requires i < |s| && Sorted(s[..i])
    ensures Inserting(s, i, i)
  {
    forall k, l | 0 <= k < l < i
      ensures Before(s[k], s[l])
    {
      assert s[..i][k] == s[k] && s[..i][l] == s[l];
    }
  }

  lemma InsertSwap(s: seq<DeviceInfo>, i: nat, j: nat)
    requires Inserting(s, i, j) && 0 < j && !Before(s[j - 1], s[j])
    ensures Inserting(s[j - 1 := s[j]][j := s[j - 1]], i, j - 1)
  {
    BeforeTotal(s[j - 1], s[j]);
  }

  lemma InsertDone(s: seq<DeviceInfo>, i: nat, j: nat)
    requires Inserting(s, i, j) && (j == 0 || Before(s[j - 1], s[j]))
    ensures Sorted(s[..i + 1])
  {
    forall k | 0 <= k < j
      ensures Before(s[k], s[j])
    {
      if k < j - 1 {
        BeforeTransitive(s[k], s[j - 1], s[j]);
      }
    }
  }

  /** One insertion step: moves `a[i]` down into the sorted prefix `a[..i]`. */
  method InsertLast(a: array<DeviceInfo>, i: nat)
    requires i < a.Length && Sorted(a[..i])
    modifies a
    ensures Sorted(a[..i + 1])
    ensures multiset(a[..]) == multiset(old(a[..]))
  {
    InsertStart(a[..], i);
    var j: nat := i;
    while j > 0 && !Before(a[j - 1], a[j])
      invariant Inserting(a[..], i, j)
      invariant multiset(a[..]) == multiset(old(a[..]))
    {
      ghost var s := a[..];
      InsertSwap(s, i, j);
      SwapKeepsEntries(s, j - 1, j);
      a[j - 1], a[j] := a[j], a[j - 1];
      assert a[..] == s[j - 1 := s[j]][j := s[j - 1]];
      j := j - 1;
    }
    InsertDone(a[..], i, j);
  }

  /** Exchanging two entries keeps the multiset of entries. */
  lemma SwapKeepsEntries(s: seq<DeviceInfo>, p: nat, q: nat)
    requires p < q < |s|
    ensures multiset(s[p := s[q]][q := s[p]]) == multiset(s)
  {
  }

  /** An element at two positions occurs at least twice. */
  lemma TwoPositions<T>(s: seq<T>, i: nat, j: nat)
    requires i < j < |s| && s[i] == s[j]
    ensures multiset(s)[s[i]] >= 2
  {
    assert s == s[..j] + s[j..];
    assert s[i] in multiset(s[..j]);
    assert s[j..][0] == s[j];
  }

  /** An element that occurs at least twice sits at two positions. */
  lemma TwoOccurrences<T>(s: seq<T>, x: T) returns (p: nat, q: nat)
    requires multiset(s)[x] >= 2
    ensures p < |s| && q < |s| && p != q && s[p] == x && s[q] == x
  {
    assert x in multiset(s);
    p :| p < |s| && s[p] == x;
    var rest := s[..p] + s[p + 1..];
    assert s == s[..p] + [x] + s[p + 1..];
    assert x in multiset(rest);
    var r: nat :| r < |rest| && rest[r] == x;
    q := if r < p then r else r + 1;
    assert s[q] == rest[r];
  }

  /** Distinct display names survive any permutation of the list. */
  lemma DistinctUnderPermutation(s: seq<DeviceInfo>, t: seq<DeviceInfo>)
    requires multiset(s) == multiset(t)
    ensures DistinctNames(s) ==> DistinctNames(t)
  {
    if DistinctNames(s) {
      forall i, j | 0 <= i < |t| && 0 <= j < |t| && i != j
        ensures t[i].displayName != t[j].displayName
      {
        if t[i] == t[j] {
          if i < j { TwoPositions(t, i, j); } else { TwoPositions(t, j, i); }
          var p, q := TwoOccurrences(s, t[i]);
        } else {
          assert t[i] in multiset(s) && t[j] in multiset(s);
          var p: nat :| p < |s| && s[p] == t[i];
          var q: nat :| q < |s| && s[q] == t[j];
          assert p != q;
        }
      }
    }
  }

  // ---------------------------------------------------------------------------
  // The device list

  /** A sorted list holding an entry with the default id starts with one. */
  lemma SortedHeadIsDefault(s: seq<DeviceInfo>, p: nat)
    requires Sorted(s) && p < |s| && s[p].id == DefaultId
    ensures s[0].id == DefaultId
  {
    if p > 0 {
      assert Before(s[0], s[p]);
    }
  }

  /** The facts of a sorted permutation of the collected list. */
  lemma SortedListOk(c: Collection, list: seq<DeviceInfo>, names: seq<Option<string>>)
    requires CollectionOk(c, names)
    requires multiset(list) == multiset(c.list) && Sorted(list) && DistinctNames(list)
    ensures |list| >= 1 && list[0] == DefaultEntry
    ensures forall i :: 0 < i < |list| ==> list[i].id != DefaultId
    ensures forall i :: 0 <= i < |list| ==> EntryOk(list[i], names)
    ensures forall i, j :: 0 < i < j < |list| ==> LexLe(list[i].displayName, list[j].displayName)
    ensures forall clean :: FirstWithName(names, clean).Some? ==> clean in DisplayNames(list)
  {
    forall i | 0 <= i < |list|
      ensures EntryOk(list[i], names)
    {
      assert list[i] in multiset(c.list);
    }
    assert DefaultEntry in multiset(list) by {
      assert c.list[0] in multiset(c.list);
    }
    var p :| 0 <= p < |list| && list[p] == DefaultEntry;
    SortedHeadIsDefault(list, p);
    assert EntryOk(list[0], names);
    forall i | 0 < i < |list|
      ensures list[i].id != DefaultId
    {
      assert list[i].displayName != list[0].displayName;
    }
    forall clean | FirstWithName(names, clean).Some?
      ensures clean in DisplayNames(list)
    {
      assert clean in DisplayNames(c.list);
      var k :| 0 <= k < |c.list| && c.list[k].displayName == clean;
      assert c.list[k] in multiset(list);
      var m :| 0 <= m < |list| && list[m] == c.list[k];
    }
  }

  /** `get_professional_device_list` over the enumerated device names: the
      default entry first and only there, every other entry a kept device of
      the input under its clean name, the first device seen with each name,
      names distinct and the rest in ascending order of display name, and no
      kept name missing. */
  method GetProfessionalDeviceList(names: seq<Option<string>>) returns (list: seq<DeviceInfo>)
    ensures |list| >= 1 && list[0] == DefaultEntry
    ensures forall i :: 0 < i < |list| ==> list[i].id != DefaultId
    ensures DistinctNames(list)
    ensures forall i, j :: 0 < i < j < |list| ==> LexLe(list[i].displayName, list[j].displayName)
    ensures forall i :: 0 < i < |list| ==>
      Some(list[i].id) in names && Keep(list[i].id) && list[i].displayName == CleanName(list[i].id) &&
      FirstWithName(names, list[i].displayName) == Some(list[i].id)
    ensures forall clean :: FirstWithName(names, clean).Some? ==> clean in DisplayNames(list)
    ensures multiset(list) == multiset(Collected(names).list)
  {
    var collected, seen := CollectDevices(names);
    CollectedOk(names);
    var a := new DeviceInfo[|collected|](i requires 0 <= i < |collected| => collected[i]);
    assert a[..] == collected;
    SortDevices(a);
    list := a[..];
    SortedListOk(Collected(names), list, names);
  }

  // ---------------------------------------------------------------------------
  // Resolving the configured input device

  /** `device.name().unwrap_or_default()`. */
  function NameOrEmpty(name: Option<string>): string {
    match name case Some(n) => n case None => ""
  }

  /** Index of the first device at or after `from` named exactly `id`. */
  function FirstNamed(devices: seq<Option<string>>, id: string, from: nat): (r: Option<nat>)
    decreases |devices| - from
    ensures r.Some? ==> from <= r.value < |devices| && NameOrEmpty(devices[r.value]) == id
    ensures r.Some? ==> forall k :: from <= k < r.value ==> NameOrEmpty(devices[k]) != id
    ensures r.None? ==> forall k :: from <= k < |devices| ==> NameOrEmpty(devices[k]) != id
  {
    if from >= |devices| then None
    else if NameOrEmpty(devices[from]) == id then Some(from)
    else FirstNamed(devices, id, from + 1)
  }

  /** Index of the first device at or after `from` whose name contains `card`. */
  function FirstContaining(devices: seq<Option<string>>, card: string, from: nat): (r: Option<nat>)
    decreases |devices| - from
    ensures r.Some? ==> from <= r.value < |devices| && Contains(NameOrEmpty(devices[r.value]), card)
    ensures r.Some? ==> forall k :: from <= k < r.value ==> !Contains(NameOrEmpty(devices[k]), card)
    ensures r.None? ==> forall k :: from <= k < |devices| ==> !Contains(NameOrEmpty(devices[k]), card)
  {
    if from >= |devices| then None
    else if Contains(NameOrEmpty(devices[from]), card) then Some(from)
    else FirstContaining(devices, card, from + 1)
  }

  /** The device an input id resolves to. */
  datatype InputDevice =
    | HostDefault                 // the host's default input device
    | Exact(index: nat)           // a device of the first enumeration
    | CardFallback(index: nat)    // a device of the second enumeration

  datatype ResolveError = NoMicFound | EnumerationFailed | DeviceNotFound

  datatype Resolution = Resolved(device: InputDevice) | Unresolved(error: ResolveError)

  /** The input-device choice of `AudioSession::create`. `hasDefault` says
      whether the host has a default input device; `devices` and `retry` are
      the names of the two enumerations of input devices (`None` when the
      enumeration fails). An exact name match wins; failing that, an id naming
      a card falls back to the first device whose name contains the card name. */
  function ResolveInputDevice(inId: string, hasDefault: bool,
                              devices: Option<seq<Option<string>>>,
                              retry: Option<seq<Option<string>>>): (r: Resolution)
    ensures inId == DefaultId ==> r == if hasDefault then Resolved(HostDefault) else Unresolved(NoMicFound)
    ensures r.Resolved? && r.device.Exact? ==>
      devices.Some? && FirstNamed(devices.value, inId, 0) == Some(r.device.index)
    ensures r.Resolved? && r.device.CardFallback? ==>
      devices.Some? && FirstNamed(devices.value, inId, 0).None? &&
      CardName(inId).Some? && retry.Some? &&
      FirstContaining(retry.value, CardName(inId).value, 0) == Some(r.device.index)
    ensures r == Unresolved(DeviceNotFound) <==>
      inId != DefaultId && devices.Some? && FirstNamed(devices.value, inId, 0).None? &&
      (CardName(inId).None? || (retry.Some? && FirstContaining(retry.value, CardName(inId).value, 0).None?))
    ensures inId != DefaultId && devices.Some? && FirstNamed(devices.value, inId, 0).Some? ==>
      r == Resolved(Exact(FirstNamed(devices.value, inId, 0).value))
    ensures inId != DefaultId && devices.Some? && FirstNamed(devices.value, inId, 0).None? &&
            CardName(inId).Some? && retry.Some? && FirstContaining(retry.value, CardName(inId).value, 0).Some? ==>
      r == Resolved(CardFallback(FirstContaining(retry.value, CardName(inId).value, 0).value))
    ensures r == Unresolved(EnumerationFailed) <==>
      inId != DefaultId &&
      (devices.None? || (FirstNamed(devices.value, inId, 0).None? && CardName(inId).Some? && retry.None?))
  {
    if inId == DefaultId then
      if hasDefault then Resolved(HostDefault) else Unresolved(NoMicFound)
    else match devices
      case None => Unresolved(EnumerationFailed)
      case Some(list) =>
        match FirstNamed(list, inId, 0)
        case Some(i) => Resolved(Exact(i))
        case None =>
          match CardName(inId)
          case None => Unresolved(DeviceNotFound)
          case Some(card) =>
            match retry
            case None => Unresolved(EnumerationFailed)
            case Some(again) =>
              match FirstContaining(again, card, 0)
              case Some(i) => Resolved(CardFallback(i))
              case None => Unresolved(DeviceNotFound)
  }

  /** An exact match in the first enumeration decides the device: neither the
      second enumeration nor the host's default device is consulted. */
  lemma ExactMatchIgnoresRetry(inId: string, hasDefault: bool, hasDefault': bool,
                               devices: Option<seq<Option<string>>>,
                               retry: Option<seq<Option<string>>>, retry': Option<seq<Option<string>>>)
    requires inId != DefaultId && devices.Some? && FirstNamed(devices.value, inId, 0).Some?
    ensures ResolveInputDevice(inId, hasDefault, devices, retry) == ResolveInputDevice(inId, hasDefault', devices, retry')
  {
  }

  /** A resolved device fits the configured id: an exact match carries the id
      as its name, and a fallback device, found only when no device of the
      first enumeration carries that name, has the card name in its name. */
  lemma ResolvedDeviceFits(inId: string, hasDefault: bool,
                           devices: Option<seq<Option<string>>>, retry: Option<seq<Option<string>>>)
    ensures var r := ResolveInputDevice(inId, hasDefault, devices, retry);
      (r.Resolved? && r.device.Exact? ==>
         r.device.index < |devices.value| && NameOrEmpty(devices.value[r.device.index]) == inId) &&
      (r.Resolved? && r.device.CardFallback? ==>
         Contains(inId, "CARD=") &&
         (forall k :: 0 <= k < |devices.value| ==> NameOrEmpty(devices.value[k]) != inId) &&
         r.device.index < |retry.value| &&
         Contains(NameOrEmpty(retry.value[r.device.index]), CardName(inId).value))
  {
  }
}
