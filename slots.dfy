/** The template filler of `generateDocx`. The primary markup part
    `word/document.xml` is seen as the sequence of its `w:r` runs in
    document order; a run is a slot when its highlight value is "yellow",
    and the Nth slot receives the Nth field of the fixed key order. The runs
    are copied into an array (the parsed DOM the source mutates) and changed
    in place. */
module SlotBinding {
  import opened Wrappers
  import opened Adapters
  import opened FieldRules

  /** A `w:r` run: the `w:val` of its highlight, if it has one, and the
      contents of its `w:t` text nodes in document order. */
  datatype Run = Run(highlight: Option<string>, texts: seq<string>)

  /** `//w:r[w:rPr/w:highlight/@w:val="yellow"]` selects the run. */
  predicate IsSlot(r: Run) { r.highlight == Some("yellow") }

  datatype FieldKey = Fio | Property | Address | Cost | Signature

  /** The binding order `['fio', 'property', 'address', 'cost', 'signature']`. */
  const Keys: seq<FieldKey> := [Fio, Property, Address, Cost, Signature]

  /** `data[key]`. */
  function Value(d: Data, k: FieldKey): string {
    match k
    case Fio => d.fio
    case Property => d.property
    case Address => d.address
    case Cost => d.cost
    case Signature => d.signature
  }

  const DocumentPart := "word/document.xml"
  const MissingDocument := "Не найден document.xml в шаблоне."

  // ---------------------------------------------------------------------
  // Specification

  /** The positions of the slots, in document order. */
  function SlotPositions(rs: seq<Run>): (ps: seq<nat>)
    ensures forall k :: 0 <= k < |ps| ==> ps[k] < |rs| && IsSlot(rs[ps[k]])
    ensures forall k, l :: 0 <= k < l < |ps| ==> ps[k] < ps[l]
    ensures |ps| <= |rs|
  {
    if rs == [] then []
    else SlotPositions(rs[..|rs| - 1]) + (if IsSlot(rs[|rs| - 1]) then [|rs| - 1] else [])
  }

  /** Every slot is collected. */
  lemma {:induction false} SlotPositionsComplete(rs: seq<Run>, j: nat)
    requires j < |rs| && IsSlot(rs[j])
    ensures j in SlotPositions(rs)
  {
    if j < |rs| - 1 {
      assert rs[..|rs| - 1][j] == rs[j];
      SlotPositionsComplete(rs[..|rs| - 1], j);
    }
  }

  /** The slots of a prefix of the runs are a prefix of the slots. */
  lemma {:induction false} SlotPositionsPrefix(rs: seq<Run>, j: nat)
    requires j <= |rs|
    ensures SlotPositions(rs[..j]) <= SlotPositions(rs)
  {
    if j < |rs| {
      assert rs[..|rs| - 1][..j] == rs[..j];
      SlotPositionsPrefix(rs[..|rs| - 1], j);
    } else {
      assert rs[..j] == rs;
    }
  }

  /** The number of slots before position `j`. */
  function SlotRank(rs: seq<Run>, j: nat): nat
    requires j <= |rs|
  {
    |SlotPositions(rs[..j])|
  }

  /** A slot's rank is its index among the slots. */
  lemma RankedSlot(rs: seq<Run>, j: nat)
    requires j < |rs| && IsSlot(rs[j])
    ensures SlotRank(rs, j) < |SlotPositions(rs)| && SlotPositions(rs)[SlotRank(rs, j)] == j
  {
    assert rs[..j + 1][..j] == rs[..j];
    assert SlotPositions(rs[..j + 1]) == SlotPositions(rs[..j]) + [j];
    SlotPositionsPrefix(rs, j + 1);
  }

  /** The Kth slot has rank K. */
  lemma SlotHasRank(rs: seq<Run>, k: nat)
    requires k < |SlotPositions(rs)|
    ensures SlotRank(rs, SlotPositions(rs)[k]) == k
  {
    RankedSlot(rs, SlotPositions(rs)[k]);
  }

  /** Overwrite the first text node of a run, if it has one. */
  function Fill(r: Run, v: string): (f: Run)
    ensures f.highlight == r.highlight && |f.texts| == |r.texts|
    ensures |r.texts| > 0 ==> f.texts[0] == v
    ensures forall i :: 0 < i < |r.texts| ==> f.texts[i] == r.texts[i]
    ensures |r.texts| == 0 ==> f == r
  {
    if |r.texts| == 0 then r else r.(texts := [v] + r.texts[1..])
  }

  /** What run `j` becomes: a slot of rank K below the number of keys gets
      the value of the Kth key; every other run stays as it is. */
  function BoundRun(rs: seq<Run>, j: nat, d: Data): Run
    requires j < |rs|
  {
    if IsSlot(rs[j]) && SlotRank(rs, j) < |Keys| then Fill(rs[j], Value(d, Keys[SlotRank(rs, j)]))
    else rs[j]
  }

  /** The runs after binding. */
  function Bound(rs: seq<Run>, d: Data): (out: seq<Run>)
    ensures |out| == |rs|
    ensures forall j :: 0 <= j < |rs| ==> out[j].highlight == rs[j].highlight
    ensures forall j :: 0 <= j < |rs| ==> |out[j].texts| == |rs[j].texts|
    ensures forall j, i :: 0 <= j < |rs| && 0 < i < |rs[j].texts| ==> out[j].texts[i] == rs[j].texts[i]
  {
    seq(|rs|, j requires 0 <= j < |rs| => BoundRun(rs, j, d))
  }

  /** The Kth slot, for K below five, reads the value of the Kth key. */
  lemma BoundSlot(rs: seq<Run>, d: Data, k: nat)
    requires k < |SlotPositions(rs)| && k < |Keys|
    ensures var j := SlotPositions(rs)[k];
      Bound(rs, d)[j] == Fill(rs[j], Value(d, Keys[k]))
  {
    SlotHasRank(rs, k);
  }

  /** Slots from the sixth on are left as they are. */
  lemma BoundLeavesLaterSlots(rs: seq<Run>, d: Data, k: nat)
    requires |Keys| <= k < |SlotPositions(rs)|
    ensures Bound(rs, d)[SlotPositions(rs)[k]] == rs[SlotPositions(rs)[k]]
  {
    SlotHasRank(rs, k);
  }

  /** A run that is not one of the first five slots is left as it is. */
  lemma BoundLeavesOthers(rs: seq<Run>, d: Data, j: nat)
    requires j < |rs|
    requires forall k :: 0 <= k < |SlotPositions(rs)| && k < |Keys| ==> SlotPositions(rs)[k] != j
    ensures Bound(rs, d)[j] == rs[j]
  {
    if IsSlot(rs[j]) {
      RankedSlot(rs, j);
    }
  }

  // ---------------------------------------------------------------------
  // The in-place algorithm

  /** The loop over the snapshot of the XPath query. */
  method CollectSlots(runs: array<Run>) returns (slots: seq<nat>)
    ensures slots == SlotPositions(runs[..])
  {
    slots := [];
    for i := 0 to runs.Length
      invariant slots == SlotPositions(runs[..i])
    {
      assert runs[..i + 1][..i] == runs[..i];
      if IsSlot(runs[i]) {
        slots := slots + [i];
      }
    }
    assert runs[..runs.Length] == runs[..];
  }

  /** `highlights.forEach`: the slot of index K below the number of keys
      has its first `w:t` set to `data[keys[K]]`. */
  method FillSlots(runs: array<Run>, slots: seq<nat>, d: Data)
    requires slots == SlotPositions(runs[..])
    modifies runs
    ensures runs[..] == Bound(old(runs[..]), d)
  {
    ghost var rs := runs[..];
    for i := 0 to |slots|
      invariant FilledBelow(rs, d, i, runs[..])
    {
      ghost var cur := runs[..];
      if i < |Keys| {
        var j := slots[i];
        var r := runs[j];
        if |r.texts| > 0 {
          runs[j] := r.(texts := [Value(d, Keys[i])] + r.texts[1..]);
        }
      }
      FillStep(rs, d, slots, i, cur, runs[..]);
    }
    FilledAll(rs, d, runs[..]);
  }

  /** The runs once the slots of rank below `i` have been filled. */
  ghost predicate FilledBelow(rs: seq<Run>, d: Data, i: nat, cur: seq<Run>) {
    |cur| == |rs| &&
    forall j :: 0 <= j < |rs| ==>
      cur[j] == if IsSlot(rs[j]) && SlotRank(rs, j) < i then BoundRun(rs, j, d) else rs[j]
  }

  /** One turn of the loop fills the slot of rank `i` and nothing else. */
  lemma FillStep(rs: seq<Run>, d: Data, slots: seq<nat>, i: nat, cur: seq<Run>, next: seq<Run>)
    requires slots == SlotPositions(rs) && i < |slots| && FilledBelow(rs, d, i, cur)
    requires i < |Keys| && |cur[slots[i]].texts| > 0 ==>
      next == cur[slots[i] := cur[slots[i]].(texts := [Value(d, Keys[i])] + cur[slots[i]].texts[1..])]
    requires !(i < |Keys| && |cur[slots[i]].texts| > 0) ==> next == cur
    ensures FilledBelow(rs, d, i + 1, next)
  {
    SlotHasRank(rs, i);
    forall j | 0 <= j < |rs| && IsSlot(rs[j]) && SlotRank(rs, j) == i
      ensures j == slots[i]
    {
      RankedSlot(rs, j);
    }
  }

  /** After the last turn every slot is filled. */
  lemma FilledAll(rs: seq<Run>, d: Data, cur: seq<Run>)
    requires FilledBelow(rs, d, |SlotPositions(rs)|, cur)
    ensures cur == Bound(rs, d)
  {
    forall j | 0 <= j < |rs| && IsSlot(rs[j]) ensures SlotRank(rs, j) < |SlotPositions(rs)| {
      RankedSlot(rs, j);
    }
  }

  /** `generateDocx` up to the rewritten container: open the template, fail
      when `word/document.xml` is missing, bind the slots of its runs, and
      replace that one part. `openZip`, `parse` and `serialize` stand for
      PizZip, DOMParser and XMLSerializer. */
  method GenerateDocx(template: Bytes, d: Data, openZip: Bytes -> Result<map<string, Bytes>, string>,
                      parse: Bytes -> seq<Run>, serialize: seq<Run> -> Bytes)
    returns (r: Result<map<string, Bytes>, string>)
    ensures openZip(template).Failure? ==> r == Failure(openZip(template).error)
    ensures openZip(template).Success? && DocumentPart !in openZip(template).value ==> r == Failure(MissingDocument)
    ensures openZip(template).Success? && DocumentPart in openZip(template).value ==>
      var parts := openZip(template).value;
      r.Success? && r.value.Keys == parts.Keys
      && r.value[DocumentPart] == serialize(Bound(parse(parts[DocumentPart]), d))
      && forall name :: name in parts && name != DocumentPart ==> r.value[name] == parts[name]
  {
    var zip := openZip(template);
    if zip.Failure? {
      return Failure(zip.error);
    }
    var parts := zip.value;
    if DocumentPart !in parts {
      return Failure(MissingDocument);
    }
    var rs := parse(parts[DocumentPart]);
    var runs := new Run[|rs|](i requires 0 <= i < |rs| => rs[i]);
    assert runs[..] == rs;
    var slots := CollectSlots(runs);
    FillSlots(runs, slots, d);
    r := Success(parts[DocumentPart := serialize(runs[..])]);
  }
}
