/**
 * The class-file constant-pool tags and the order in which each of the
 * three constant-pool passes visits the slots: it starts at slot 1 and
 * steps over the second slot of every LONG or DOUBLE entry (section 4.4.5
 * of the Java Virtual Machine Specification).
 */
module PoolScan {

  /** Constant-pool tag bytes (table 4.4-A of the JVM specification; 2 is the reader's filler). */
  const TAG_UTF: bv8 := 1
  const TAG_UNUSED: bv8 := 2
  const TAG_INT: bv8 := 3
  const TAG_FLOAT: bv8 := 4
  const TAG_LONG: bv8 := 5
  const TAG_DOUBLE: bv8 := 6
  const TAG_TYPEREF: bv8 := 7
  const TAG_STRING: bv8 := 8
  const TAG_FIELDREF: bv8 := 9
  const TAG_METHODREF: bv8 := 10
  const TAG_INTERFACE_METHODREF: bv8 := 11
  const TAG_MEMBERNAME_AND_DESCRIPTOR: bv8 := 12

  /** The tags pass 1 accepts. */
  predicate Recognised(t: bv8) {
    t == TAG_UTF || (TAG_INT <= t && t <= TAG_MEMBERNAME_AND_DESCRIPTOR)
  }

  /** LONG and DOUBLE entries occupy two slots. */
  predicate IsWideTag(t: bv8) {
    t == TAG_LONG || t == TAG_DOUBLE
  }

  predicate IsMemberRefTag(t: bv8) {
    t == TAG_FIELDREF || t == TAG_METHODREF || t == TAG_INTERFACE_METHODREF
  }

  /** How far a pass's loop index moves after visiting a slot with tag `t`. */
  function Step(t: bv8): nat {
    if IsWideTag(t) then 2 else 1
  }

  /** A pass that starts its loop at `start` visits slot `j`. */
  ghost predicate ScannedFrom(tags: seq<bv8>, start: nat, j: nat)
    decreases j - start
  {
    start <= j < |tags| && (start == j || ScannedFrom(tags, start + Step(tags[start]), j))
  }

  /** Each pass visits slot `j` (its loops start at slot 1). */
  ghost predicate IsScanned(tags: seq<bv8>, j: nat) {
    ScannedFrom(tags, 1, j)
  }

  /** Slot `j` is the second half of a LONG or DOUBLE the passes visit. */
  ghost predicate IsFiller(tags: seq<bv8>, j: nat) {
    1 <= j - 1 && j < |tags| && IsScanned(tags, j - 1) && IsWideTag(tags[j - 1])
  }

  /** Two slots on one scan: the later one is reached from the earlier one. */
  lemma {:induction false} ScanPasses(tags: seq<bv8>, start: nat, i: nat, j: nat)
    requires ScannedFrom(tags, start, i) && ScannedFrom(tags, start, j) && i <= j
    ensures ScannedFrom(tags, i, j)
    decreases i - start
  {
    if start < i {
      ScanPasses(tags, start + Step(tags[start]), i, j);
    }
  }

  /**
   * Every slot from 1 on is either visited by the passes or is the filler
   * after a LONG/DOUBLE, and never both: the passes step over exactly the
   * fillers.
   */
  lemma {:induction false} ScannedOrFiller(tags: seq<bv8>, j: nat)
    requires 1 <= j < |tags|
    ensures IsScanned(tags, j) <==> !IsFiller(tags, j)
    decreases j
  {
    if j == 1 {
    } else if IsFiller(tags, j) {
      if IsScanned(tags, j) {
        ScanPasses(tags, 1, j - 1, j);
      }
    } else {
      ScannedOrFiller(tags, j - 1);
      if IsScanned(tags, j - 1) {
        assert !IsWideTag(tags[j - 1]);
        assert ScannedFrom(tags, j - 1, j);
        ScanReaches(tags, 1, j - 1, j);
      } else {
        assert IsFiller(tags, j - 1);
        assert ScannedFrom(tags, j - 2, j);
        ScanReaches(tags, 1, j - 2, j);
      }
    }
  }

  /** Reachability along a scan is transitive. */
  lemma {:induction false} ScanReaches(tags: seq<bv8>, start: nat, i: nat, j: nat)
    requires ScannedFrom(tags, start, i) && ScannedFrom(tags, i, j)
    ensures ScannedFrom(tags, start, j)
    decreases i - start
  {
    if start < i {
      ScanReaches(tags, start + Step(tags[start]), i, j);
    }
  }
}
