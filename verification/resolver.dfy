/**
 * Passes 2 and 3 of constant-pool construction. Pass 1 leaves TYPEREF and
 * STRING slots holding the raw index of their UTF entry and member-reference
 * and name-and-type slots holding a temp pair of indices. Pass 2 rewrites
 * TYPEREF slots into CLASS words and STRING slots into STRING words; pass 3
 * rewrites FIELDREF, METHODREF and INTERFACE_METHODREF slots into MEMBER
 * words. Both passes work in place over one array and consult the raw tag
 * read by pass 1 in a parallel sequence.
 */
module PoolResolver {
  import opened Outcomes
  import opened CpCodec
  import opened PoolScan
  import opened PoolAccess
  import opened Collaborators

  // ------------------------------------------------------------- pass 2

  /** A slot pass 2 rewrites. */
  ghost predicate PassTwoTarget(tags: seq<bv8>, j: nat) {
    IsScanned(tags, j) && (tags[j] == TAG_TYPEREF || tags[j] == TAG_STRING)
  }

  /** What pass 2 leaves in slot `j`, as far as the packed tag goes. */
  ghost predicate PassTwoOutcome(words: seq<bv32>, tags: seq<bv8>, w: bv32, j: nat)
    requires j < |words| == |tags|
  {
    if IsScanned(tags, j) && tags[j] == TAG_TYPEREF then UnpackCPType(w) == CP_CLASS
    else if IsScanned(tags, j) && tags[j] == TAG_STRING then UnpackCPType(w) == CP_STRING
    else w == words[j]
  }

  /** Slot `u` holds a UTF word that pass 2 never rewrites. */
  ghost predicate StableUtf(words: seq<bv32>, tags: seq<bv8>, u: int)
    requires |words| == |tags|
  {
    0 <= u < |words| && !PassTwoTarget(tags, u) && UnpackCPType(words[u]) == CP_UTF
  }

  /** Every TYPEREF/STRING the pass visits names a UTF slot the pass does not rewrite. */
  ghost predicate ReadyForPassTwo(words: seq<bv32>, tags: seq<bv8>)
    requires |words| == |tags|
  {
    forall j: nat :: PassTwoTarget(tags, j) ==> StableUtf(words, tags, words[j] as int)
  }

  /** Every STRING the pass visits names an atom that is a well-formed string. */
  ghost predicate StringsInternable(words: seq<bv32>, tags: seq<bv8>, reg: Registries)
    requires |words| == |tags|
  {
    forall j: nat :: IsScanned(tags, j) && tags[j] == TAG_STRING && words[j] as int < |words| ==>
      reg.stringLiteral(UnpackUnsignedCPValue(words[words[j] as int])).Some?
  }

  /** The CLASS word for a type whose name is the atom in slot `u`. */
  function ClassWord(words: seq<bv32>, reg: Registries, u: int): bv32
    requires 0 <= u < |words|
  {
    PackCPEntry(CP_CLASS, reg.classType(UnpackUnsignedCPValue(words[u])))
  }

  /** The word pass 2 leaves in slot `j`, read off the pass-1 words alone. */
  ghost function PassTwoWord(words: seq<bv32>, tags: seq<bv8>, reg: Registries, j: nat): bv32
    requires j < |words| == |tags|
  {
    if PassTwoTarget(tags, j) && words[j] as int < |words| then
      var atom := UnpackUnsignedCPValue(words[words[j] as int]);
      if tags[j] == TAG_TYPEREF then ClassWord(words, reg, words[j] as int)
      else match reg.stringLiteral(atom)
        case Some(offset) => PackCPEntry(CP_STRING, offset)
        case None => words[j]
    else words[j]
  }

  /** The new word for a visited TYPEREF or STRING slot `i`, read from the array as it stands. */
  function ResolveTypeOrString(cp: seq<bv32>, tag: bv8, i: nat, reg: Registries): (r: Result<bv32>)
    requires i < |cp| && (tag == TAG_TYPEREF || tag == TAG_STRING)
    ensures r.Ok? ==> HasTag(cp, cp[i] as int, CP_UTF)
    ensures r.Ok? && tag == TAG_TYPEREF ==> UnpackCPType(r.value) == CP_CLASS
    ensures r.Ok? && tag == TAG_STRING ==> UnpackCPType(r.value) == CP_STRING
    ensures r.Err? && HasTag(cp, cp[i] as int, CP_UTF) ==> r.error == MalformedString
  {
    var atom :- UtfAt(cp, cp[i] as int);
    if tag == TAG_TYPEREF then
      Ok(PackCPEntry(CP_CLASS, reg.classType(atom)))
    else
      match reg.stringLiteral(atom)
      case Some(offset) => Ok(PackCPEntry(CP_STRING, offset))
      case None => Err(MalformedString)
  }

  /** The state of the array when pass 2's loop index is `i`. */
  ghost predicate PassTwoProgress(words: seq<bv32>, tags: seq<bv8>, reg: Registries, cp: seq<bv32>, i: nat)
  {
    && |cp| == |words| == |tags| && 1 <= i
    && (forall j :: i <= j < |tags| ==> (IsScanned(tags, j) <==> ScannedFrom(tags, i, j)))
    && (forall j :: i <= j < |cp| ==> cp[j] == words[j])
    && (forall j :: 0 <= j < i && j < |cp| ==> PassTwoOutcome(words, tags, cp[j], j))
    && (ReadyForPassTwo(words, tags) ==>
         forall j :: 0 <= j < i && j < |cp| ==> cp[j] == PassTwoWord(words, tags, reg, j))
    && (ReadyForPassTwo(words, tags) ==>
         forall j :: 0 <= j < i && j < |cp| && IsScanned(tags, j) && tags[j] == TAG_STRING ==>
           reg.stringLiteral(UnpackUnsignedCPValue(words[words[j] as int])).Some?)
  }

  lemma PassTwoStart(words: seq<bv32>, tags: seq<bv8>, reg: Registries)
    requires |words| == |tags|
    ensures PassTwoProgress(words, tags, reg, words, 1)
  {
  }

  /** Visiting a slot pass 2 leaves alone (a filler after LONG/DOUBLE is stepped over). */
  lemma PassTwoSkip(words: seq<bv32>, tags: seq<bv8>, reg: Registries, cp: seq<bv32>, i: nat)
    requires PassTwoProgress(words, tags, reg, cp, i) && i < |cp|
    requires tags[i] != TAG_TYPEREF && tags[i] != TAG_STRING
    ensures PassTwoProgress(words, tags, reg, cp, i + Step(tags[i]))
  {
    assert IsScanned(tags, i);
    if IsWideTag(tags[i]) {
      assert !ScannedFrom(tags, i + 2, i + 1);
    }
  }

  /** Moving past a one-slot entry once slot `i` holds what pass 2 leaves there. */
  lemma PassTwoAdvance(words: seq<bv32>, tags: seq<bv8>, reg: Registries, cp: seq<bv32>, i: nat, w: bv32)
    requires PassTwoProgress(words, tags, reg, cp, i) && i < |cp|
    requires IsScanned(tags, i) && !IsWideTag(tags[i])
    requires PassTwoOutcome(words, tags, w, i)
    requires ReadyForPassTwo(words, tags) ==> w == PassTwoWord(words, tags, reg, i)
    requires ReadyForPassTwo(words, tags) && tags[i] == TAG_STRING ==>
      reg.stringLiteral(UnpackUnsignedCPValue(words[words[i] as int])).Some?
    ensures PassTwoProgress(words, tags, reg, cp[i := w], i + 1)
  {
    assert ScannedFrom(tags, i, i + 1) == ScannedFrom(tags, i + 1, i + 1);
  }

  /** Rewriting a visited TYPEREF or STRING slot. */
  lemma PassTwoRewrite(words: seq<bv32>, tags: seq<bv8>, reg: Registries, cp: seq<bv32>, i: nat)
    requires PassTwoProgress(words, tags, reg, cp, i) && i < |cp|
    requires tags[i] == TAG_TYPEREF || tags[i] == TAG_STRING
    requires ResolveTypeOrString(cp, tags[i], i, reg).Ok?
    ensures PassTwoProgress(words, tags, reg, cp[i := ResolveTypeOrString(cp, tags[i], i, reg).value], i + 1)
  {
    assert IsScanned(tags, i);
    var w := ResolveTypeOrString(cp, tags[i], i, reg).value;
    if ReadyForPassTwo(words, tags) {
      var u := words[i] as int;
      assert StableUtf(words, tags, u);
      assert cp[u] == words[u];
      assert w == PassTwoWord(words, tags, reg, i);
    }
    PassTwoAdvance(words, tags, reg, cp, i, w);
  }

  /** A failing slot means the pool was not ready or a string cannot be interned. */
  lemma PassTwoFailure(words: seq<bv32>, tags: seq<bv8>, reg: Registries, cp: seq<bv32>, i: nat)
    requires PassTwoProgress(words, tags, reg, cp, i) && i < |cp|
    requires tags[i] == TAG_TYPEREF || tags[i] == TAG_STRING
    requires ResolveTypeOrString(cp, tags[i], i, reg).Err?
    ensures ReadyForPassTwo(words, tags) ==> !StringsInternable(words, tags, reg)
  {
    assert IsScanned(tags, i);
    if ReadyForPassTwo(words, tags) {
      var u := words[i] as int;
      assert StableUtf(words, tags, u);
      assert cp[u] == words[u];
    }
  }

  /** The loop has run past the last slot. */
  lemma PassTwoDone(words: seq<bv32>, tags: seq<bv8>, reg: Registries, cp: seq<bv32>, i: nat)
    requires PassTwoProgress(words, tags, reg, cp, i) && i >= |cp|
    ensures forall j :: 0 <= j < |words| ==> PassTwoOutcome(words, tags, cp[j], j)
    ensures ReadyForPassTwo(words, tags) ==> StringsInternable(words, tags, reg)
    ensures ReadyForPassTwo(words, tags) ==>
      forall j :: 0 <= j < |words| ==> cp[j] == PassTwoWord(words, tags, reg, j)
  {
  }

  /**
   * Pass 2. On success the visited TYPEREF slots hold CLASS words, the
   * visited STRING slots hold STRING words, and every other slot (the
   * fillers after LONG/DOUBLE included) is unchanged. When every reference
   * names a UTF slot the pass does not rewrite, it succeeds exactly when
   * every string literal can be interned, and then each rewritten word is
   * determined by the pass-1 words alone, whatever the order of the slots.
   */
  method ResolveTypesAndStrings(words: seq<bv32>, tags: seq<bv8>, reg: Registries)
    returns (r: Result<seq<bv32>>)
    requires |words| == |tags|
    ensures r.Ok? ==> |r.value| == |words|
    ensures r.Ok? ==> forall j :: 0 <= j < |words| ==> PassTwoOutcome(words, tags, r.value[j], j)
    ensures ReadyForPassTwo(words, tags) ==> (r.Ok? <==> StringsInternable(words, tags, reg))
    ensures ReadyForPassTwo(words, tags) && r.Ok? ==>
      forall j :: 0 <= j < |words| ==> r.value[j] == PassTwoWord(words, tags, reg, j)
  {
    var cp := words;
    var i: nat := 1;
    PassTwoStart(words, tags, reg);
    while i < |cp|
      invariant PassTwoProgress(words, tags, reg, cp, i)
    {
      var t := tags[i];
      if t == TAG_TYPEREF || t == TAG_STRING {
        var w := ResolveTypeOrString(cp, t, i, reg);
        if w.Err? {
          PassTwoFailure(words, tags, reg, cp, i);
          return Err(w.error);
        }
        PassTwoRewrite(words, tags, reg, cp, i);
        cp := cp[i := w.value];
        i := i + 1;
      } else {
        PassTwoSkip(words, tags, reg, cp, i);
        i := i + Step(t);
      }
    }
    PassTwoDone(words, tags, reg, cp, i);
    return Ok(cp);
  }

  // ------------------------------------------------------------- pass 3

  /** A slot pass 3 rewrites. */
  ghost predicate PassThreeTarget(tags: seq<bv8>, j: nat) {
    IsScanned(tags, j) && IsMemberRefTag(tags[j])
  }

  /** What pass 3 leaves in slot `j`, as far as the packed tag goes. */
  ghost predicate PassThreeOutcome(cp0: seq<bv32>, tags: seq<bv8>, w: bv32, j: nat)
    requires j < |cp0| == |tags|
  {
    if PassThreeTarget(tags, j) then UnpackCPType(w) == CP_MEMBER else w == cp0[j]
  }

  /** Slot `u` holds a word with packed tag `tag` that pass 3 never rewrites. */
  ghost predicate StableSlot(cp0: seq<bv32>, tags: seq<bv8>, u: int, tag: bv8)
    requires |cp0| == |tags|
  {
    0 <= u < |cp0| && !PassThreeTarget(tags, u) && UnpackCPType(cp0[u]) == tag
  }

  /**
   * The member reference in slot `j` names a class slot (or 0) and a
   * name-and-type slot whose two halves name UTF slots, none of which pass 3
   * rewrites.
   */
  ghost predicate StableMemberRef(cp0: seq<bv32>, tags: seq<bv8>, j: nat)
    requires j < |cp0| == |tags|
  {
    var c := UnpackTempCPIndex1(cp0[j]) as int;
    var nt := UnpackTempCPIndex2(cp0[j]) as int;
    && (c == 0 || StableSlot(cp0, tags, c, CP_CLASS))
    && nt < |cp0| && !PassThreeTarget(tags, nt)
    && StableSlot(cp0, tags, UnpackTempCPIndex1(cp0[nt]) as int, CP_UTF)
    && StableSlot(cp0, tags, UnpackTempCPIndex2(cp0[nt]) as int, CP_UTF)
  }

  ghost predicate ReadyForPassThree(cp0: seq<bv32>, tags: seq<bv8>)
    requires |cp0| == |tags|
  {
    forall j: nat :: j < |cp0| && PassThreeTarget(tags, j) ==> StableMemberRef(cp0, tags, j)
  }

  /** The word pass 3 leaves in slot `j`, read off the words it starts from. */
  ghost function PassThreeWord(cp0: seq<bv32>, tags: seq<bv8>, reg: Registries, j: nat): bv32
    requires j < |cp0| == |tags|
  {
    if PassThreeTarget(tags, j) && StableMemberRef(cp0, tags, j) then
      var nt := UnpackTempCPIndex2(cp0[j]) as int;
      PackCPEntry(CP_MEMBER, reg.member(
        GetTypeRef(cp0, UnpackTempCPIndex1(cp0[j]) as int),
        GetUtf(cp0, UnpackTempCPIndex1(cp0[nt]) as int),
        GetUtf(cp0, UnpackTempCPIndex2(cp0[nt]) as int)))
    else cp0[j]
  }

  /**
   * The new word for a visited member-reference slot `i`, read from the array
   * as it stands: the class, then the name, then the descriptor, each checked
   * where the source would fail an assertion or an array bound.
   */
  function ResolveMember(cp: seq<bv32>, i: nat, reg: Registries): (r: Result<bv32>)
    requires i < |cp|
    ensures r.Ok? ==> UnpackCPType(r.value) == CP_MEMBER
    ensures UnpackTempCPIndex2(cp[i]) as int >= |cp| ==>
      r == Err(IndexOutOfRange(UnpackTempCPIndex2(cp[i]) as int))
  {
    var c := UnpackTempCPIndex1(cp[i]) as int;
    var nt := UnpackTempCPIndex2(cp[i]) as int;
    if nt >= |cp| then Err(IndexOutOfRange(nt))
    else
      var tref :- TypeRefAt(cp, c);
      var name :- UtfAt(cp, UnpackTempCPIndex1(cp[nt]) as int);
      var descriptor :- UtfAt(cp, UnpackTempCPIndex2(cp[nt]) as int);
      Ok(PackCPEntry(CP_MEMBER, reg.member(tref, name, descriptor)))
  }

  /** The state of the array when pass 3's loop index is `i`. */
  ghost predicate PassThreeProgress(cp0: seq<bv32>, tags: seq<bv8>, reg: Registries, cp: seq<bv32>, i: nat)
  {
    && |cp| == |cp0| == |tags| && 1 <= i
    && (forall j :: i <= j < |tags| ==> (IsScanned(tags, j) <==> ScannedFrom(tags, i, j)))
    && (forall j :: i <= j < |cp| ==> cp[j] == cp0[j])
    && (forall j :: 0 <= j < i && j < |cp| ==> PassThreeOutcome(cp0, tags, cp[j], j))
    && (ReadyForPassThree(cp0, tags) ==>
         forall j :: 0 <= j < i && j < |cp| ==> cp[j] == PassThreeWord(cp0, tags, reg, j))
  }

  lemma PassThreeStart(cp0: seq<bv32>, tags: seq<bv8>, reg: Registries)
    requires |cp0| == |tags|
    ensures PassThreeProgress(cp0, tags, reg, cp0, 1)
  {
  }

  /** Visiting a slot pass 3 leaves alone (a filler after LONG/DOUBLE is stepped over). */
  lemma PassThreeSkip(cp0: seq<bv32>, tags: seq<bv8>, reg: Registries, cp: seq<bv32>, i: nat)
    requires PassThreeProgress(cp0, tags, reg, cp, i) && i < |cp|
    requires !IsMemberRefTag(tags[i])
    ensures PassThreeProgress(cp0, tags, reg, cp, i + Step(tags[i]))
  {
    assert IsScanned(tags, i);
    if IsWideTag(tags[i]) {
      assert !ScannedFrom(tags, i + 2, i + 1);
    }
  }

  /** On the words pass 3 starts from, a stable member reference resolves to `PassThreeWord`. */
  lemma ResolveStableMember(cp0: seq<bv32>, tags: seq<bv8>, reg: Registries, i: nat)
    requires i < |cp0| == |tags|
    requires PassThreeTarget(tags, i) && StableMemberRef(cp0, tags, i)
    ensures ResolveMember(cp0, i, reg) == Ok(PassThreeWord(cp0, tags, reg, i))
  {
  }

  lemma TypeRefAtReads(cp: seq<bv32>, cp': seq<bv32>, index: int)
    requires |cp| == |cp'| && 0 <= index
    requires index < |cp| ==> cp[index] == cp'[index]
    ensures TypeRefAt(cp, index) == TypeRefAt(cp', index)
  {
  }

  lemma UtfAtReads(cp: seq<bv32>, cp': seq<bv32>, index: int)
    requires |cp| == |cp'| && 0 <= index
    requires index < |cp| ==> cp[index] == cp'[index]
    ensures UtfAt(cp, index) == UtfAt(cp', index)
  {
  }

  /** The step reads only the slot itself, its class, its name-and-type and the two UTF slots. */
  lemma ResolveMemberReads(cp: seq<bv32>, cp': seq<bv32>, i: nat, reg: Registries)
    requires i < |cp| == |cp'| && cp[i] == cp'[i]
    requires var c := UnpackTempCPIndex1(cp[i]) as int; c < |cp| ==> cp[c] == cp'[c]
    requires var nt := UnpackTempCPIndex2(cp[i]) as int;
      nt < |cp| ==> cp[nt] == cp'[nt]
    requires var nt := UnpackTempCPIndex2(cp[i]) as int;
      nt < |cp| ==> var name := UnpackTempCPIndex1(cp[nt]) as int; name < |cp| ==> cp[name] == cp'[name]
    requires var nt := UnpackTempCPIndex2(cp[i]) as int;
      nt < |cp| ==> var d := UnpackTempCPIndex2(cp[nt]) as int; d < |cp| ==> cp[d] == cp'[d]
    ensures ResolveMember(cp, i, reg) == ResolveMember(cp', i, reg)
  {
    var nt := UnpackTempCPIndex2(cp[i]) as int;
    if nt < |cp| {
      TypeRefAtReads(cp, cp', UnpackTempCPIndex1(cp[i]) as int);
      UtfAtReads(cp, cp', UnpackTempCPIndex1(cp[nt]) as int);
      UtfAtReads(cp, cp', UnpackTempCPIndex2(cp[nt]) as int);
    }
  }

  /** When the slots it reads are stable, the step computes `PassThreeWord`. */
  lemma PassThreeStable(cp0: seq<bv32>, tags: seq<bv8>, reg: Registries, cp: seq<bv32>, i: nat)
    requires PassThreeProgress(cp0, tags, reg, cp, i) && i < |cp|
    requires PassThreeTarget(tags, i) && StableMemberRef(cp0, tags, i)
    ensures ResolveMember(cp, i, reg) == Ok(PassThreeWord(cp0, tags, reg, i))
  {
    var nt := UnpackTempCPIndex2(cp0[i]) as int;
    PassThreeKeeps(cp0, tags, reg, cp, i, nt);
    PassThreeKeeps(cp0, tags, reg, cp, i, UnpackTempCPIndex1(cp0[nt]) as int);
    PassThreeKeeps(cp0, tags, reg, cp, i, UnpackTempCPIndex2(cp0[nt]) as int);
    var c := UnpackTempCPIndex1(cp0[i]) as int;
    if c != 0 {
      PassThreeKeeps(cp0, tags, reg, cp, i, c);
    }
    ResolveMemberReads(cp, cp0, i, reg);
    ResolveStableMember(cp0, tags, reg, i);
  }

  /** A slot pass 3 does not rewrite still holds its starting word. */
  lemma PassThreeKeeps(cp0: seq<bv32>, tags: seq<bv8>, reg: Registries, cp: seq<bv32>, i: nat, u: int)
    requires PassThreeProgress(cp0, tags, reg, cp, i)
    requires 0 <= u < |cp| && !PassThreeTarget(tags, u)
    ensures cp[u] == cp0[u]
  {
    if u < i {
      assert PassThreeOutcome(cp0, tags, cp[u], u);
    }
  }

  /** Rewriting a visited member-reference slot. */
  lemma PassThreeRewrite(cp0: seq<bv32>, tags: seq<bv8>, reg: Registries, cp: seq<bv32>, i: nat)
    requires PassThreeProgress(cp0, tags, reg, cp, i) && i < |cp|
    requires IsMemberRefTag(tags[i])
    requires ResolveMember(cp, i, reg).Ok?
    ensures PassThreeProgress(cp0, tags, reg, cp[i := ResolveMember(cp, i, reg).value], i + 1)
  {
    assert IsScanned(tags, i);
    if ReadyForPassThree(cp0, tags) {
      PassThreeStable(cp0, tags, reg, cp, i);
    }
  }

  /** A failing slot means some member reference reaches an unstable slot. */
  lemma PassThreeFailure(cp0: seq<bv32>, tags: seq<bv8>, reg: Registries, cp: seq<bv32>, i: nat)
    requires PassThreeProgress(cp0, tags, reg, cp, i) && i < |cp|
    requires IsMemberRefTag(tags[i])
    requires ResolveMember(cp, i, reg).Err?
    ensures !ReadyForPassThree(cp0, tags)
  {
    assert IsScanned(tags, i);
    if ReadyForPassThree(cp0, tags) {
      PassThreeStable(cp0, tags, reg, cp, i);
    }
  }

  lemma PassThreeDone(cp0: seq<bv32>, tags: seq<bv8>, reg: Registries, cp: seq<bv32>, i: nat)
    requires PassThreeProgress(cp0, tags, reg, cp, i) && i >= |cp|
    ensures forall j :: 0 <= j < |cp0| ==> PassThreeOutcome(cp0, tags, cp[j], j)
    ensures ReadyForPassThree(cp0, tags) ==>
      forall j :: 0 <= j < |cp0| ==> cp[j] == PassThreeWord(cp0, tags, reg, j)
  {
  }

  /**
   * Pass 3. On success the visited member-reference slots hold MEMBER words
   * and every other slot is unchanged. When every member reference reaches
   * only slots the pass does not rewrite, with the packed tags the accessors
   * assert, the pass cannot fail and each rewritten word is determined by
   * the words it started from, whatever the order of the slots.
   */
  method ResolveMembers(cp0: seq<bv32>, tags: seq<bv8>, reg: Registries)
    returns (r: Result<seq<bv32>>)
    requires |cp0| == |tags|
    ensures r.Ok? ==> |r.value| == |cp0|
    ensures r.Ok? ==> forall j :: 0 <= j < |cp0| ==> PassThreeOutcome(cp0, tags, r.value[j], j)
    ensures ReadyForPassThree(cp0, tags) ==> r.Ok?
    ensures ReadyForPassThree(cp0, tags) && r.Ok? ==>
      forall j :: 0 <= j < |cp0| ==> r.value[j] == PassThreeWord(cp0, tags, reg, j)
  {
    var cp := cp0;
    var i: nat := 1;
    PassThreeStart(cp0, tags, reg);
    while i < |cp|
      invariant PassThreeProgress(cp0, tags, reg, cp, i)
    {
      var t := tags[i];
      if IsMemberRefTag(t) {
        var w := ResolveMember(cp, i, reg);
        if w.Err? {
          PassThreeFailure(cp0, tags, reg, cp, i);
          return Err(w.error);
        }
        PassThreeRewrite(cp0, tags, reg, cp, i);
        cp := cp[i := w.value];
        i := i + 1;
      } else {
        PassThreeSkip(cp0, tags, reg, cp, i);
        i := i + Step(t);
      }
    }
    PassThreeDone(cp0, tags, reg, cp, i);
    return Ok(cp);
  }

  // ------------------------------------------------------ the two passes

  /** Slot `u` is a UTF entry as pass 1 leaves it. */
  ghost predicate IsUtfSlot(words: seq<bv32>, tags: seq<bv8>, u: int)
    requires |words| == |tags|
  {
    0 <= u < |words| && tags[u] == TAG_UTF && UnpackCPType(words[u]) == CP_UTF
  }

  /**
   * The member reference in slot `j` names 0 or a visited TYPEREF entry, and
   * a name-and-type entry whose halves name UTF entries.
   */
  ghost predicate WellFormedMemberRef(words: seq<bv32>, tags: seq<bv8>, j: nat)
    requires j < |words| == |tags|
  {
    var c := UnpackTempCPIndex1(words[j]) as int;
    var nt := UnpackTempCPIndex2(words[j]) as int;
    && (c == 0 || (c < |words| && PassTwoTarget(tags, c) && tags[c] == TAG_TYPEREF
                   && IsUtfSlot(words, tags, words[c] as int)))
    && nt < |words| && tags[nt] == TAG_MEMBERNAME_AND_DESCRIPTOR
    && IsUtfSlot(words, tags, UnpackTempCPIndex1(words[nt]) as int)
    && IsUtfSlot(words, tags, UnpackTempCPIndex2(words[nt]) as int)
  }

  /**
   * Every cross-reference in the pool, as pass 1 leaves it, points at an
   * entry of the kind the class-file format requires, wherever that entry
   * sits in the pool.
   */
  ghost predicate PoolWellFormed(words: seq<bv32>, tags: seq<bv8>)
    requires |words| == |tags|
  {
    && (forall j: nat :: PassTwoTarget(tags, j) ==> IsUtfSlot(words, tags, words[j] as int))
    && (forall j: nat :: j < |words| && PassThreeTarget(tags, j) ==> WellFormedMemberRef(words, tags, j))
  }

  /** What the two passes leave in slot `j`, as far as the packed tag goes. */
  ghost predicate PoolOutcome(words: seq<bv32>, tags: seq<bv8>, w: bv32, j: nat)
    requires j < |words| == |tags|
  {
    if PassTwoTarget(tags, j) && tags[j] == TAG_TYPEREF then UnpackCPType(w) == CP_CLASS
    else if PassTwoTarget(tags, j) then UnpackCPType(w) == CP_STRING
    else if PassThreeTarget(tags, j) then UnpackCPType(w) == CP_MEMBER
    else w == words[j]
  }

  /** The type reference a member reference's class index stands for; 0 is the null reference. */
  ghost function ClassRefOf(words: seq<bv32>, reg: Registries, c: int): Option<bv32>
    requires 0 <= c < |words| && 0 <= words[c] as int < |words|
  {
    if c == 0 then None else Some(UnpackUnsignedCPValue(ClassWord(words, reg, words[c] as int)))
  }

  /** The resolved word of slot `j`, read off the pass-1 words alone. */
  ghost function ResolvedWord(words: seq<bv32>, tags: seq<bv8>, reg: Registries, j: nat): bv32
    requires j < |words| == |tags|
  {
    if PassTwoTarget(tags, j) then PassTwoWord(words, tags, reg, j)
    else if PassThreeTarget(tags, j) && WellFormedMemberRef(words, tags, j) then
      var c := UnpackTempCPIndex1(words[j]) as int;
      var nt := UnpackTempCPIndex2(words[j]) as int;
      var name := UnpackTempCPIndex1(words[nt]) as int;
      var descriptor := UnpackTempCPIndex2(words[nt]) as int;
      PackCPEntry(CP_MEMBER, reg.member(
        if c == 0 then None else ClassRefOf(words, reg, c),
        UnpackUnsignedCPValue(words[name]),
        UnpackUnsignedCPValue(words[descriptor])))
    else words[j]
  }

  lemma WellFormedReadyForPassTwo(words: seq<bv32>, tags: seq<bv8>)
    requires |words| == |tags| && PoolWellFormed(words, tags)
    ensures ReadyForPassTwo(words, tags)
  {
    forall j: nat | PassTwoTarget(tags, j)
      ensures StableUtf(words, tags, words[j] as int)
    {
      assert IsUtfSlot(words, tags, words[j] as int);
    }
  }

  /**
   * The slots a well-formed member reference in slot `j` reaches, as pass 2
   * leaves them: all as pass 1 left them, except the class slot, which holds
   * the CLASS word of its name.
   */
  ghost predicate MemberRefAfterPassTwo(words: seq<bv32>, tags: seq<bv8>, reg: Registries, cp1: seq<bv32>, j: nat)
    requires |words| == |tags| == |cp1| && j < |words| && WellFormedMemberRef(words, tags, j)
  {
    var c := UnpackTempCPIndex1(words[j]) as int;
    var nt := UnpackTempCPIndex2(words[j]) as int;
    && cp1[j] == words[j]
    && cp1[nt] == words[nt]
    && cp1[UnpackTempCPIndex1(words[nt]) as int] == words[UnpackTempCPIndex1(words[nt]) as int]
    && cp1[UnpackTempCPIndex2(words[nt]) as int] == words[UnpackTempCPIndex2(words[nt]) as int]
    && (c != 0 ==> cp1[c] == ClassWord(words, reg, words[c] as int))
  }

  /** Pass 2 rewrites none of the slots a member reference reaches except its class slot. */
  lemma KeptByPassTwo(words: seq<bv32>, tags: seq<bv8>, reg: Registries, cp1: seq<bv32>, j: nat)
    requires |words| == |tags| == |cp1| && PoolWellFormed(words, tags) && j < |words|
    requires forall k :: 0 <= k < |words| ==> cp1[k] == PassTwoWord(words, tags, reg, k)
    requires PassThreeTarget(tags, j)
    ensures WellFormedMemberRef(words, tags, j)
    ensures MemberRefAfterPassTwo(words, tags, reg, cp1, j)
  {
    assert WellFormedMemberRef(words, tags, j);
    var c := UnpackTempCPIndex1(words[j]) as int;
    var nt := UnpackTempCPIndex2(words[j]) as int;
    assert cp1[j] == PassTwoWord(words, tags, reg, j);
    assert cp1[nt] == PassTwoWord(words, tags, reg, nt);
    assert cp1[UnpackTempCPIndex1(words[nt]) as int] == PassTwoWord(words, tags, reg, UnpackTempCPIndex1(words[nt]) as int);
    assert cp1[UnpackTempCPIndex2(words[nt]) as int] == PassTwoWord(words, tags, reg, UnpackTempCPIndex2(words[nt]) as int);
    if c != 0 {
      assert cp1[c] == PassTwoWord(words, tags, reg, c);
    }
  }

  /** A member reference of a well-formed pool is still stable after pass 2. */
  lemma WellFormedStableAfterPassTwo(words: seq<bv32>, tags: seq<bv8>, reg: Registries, cp1: seq<bv32>, j: nat)
    requires |words| == |tags| == |cp1| && j < |words|
    requires PassThreeTarget(tags, j) && WellFormedMemberRef(words, tags, j)
    requires MemberRefAfterPassTwo(words, tags, reg, cp1, j)
    ensures StableMemberRef(cp1, tags, j)
  {
  }

  /** The member word pass 3 computes after pass 2 is the one read off the pass-1 words. */
  lemma WellFormedMemberAfterPassTwo(words: seq<bv32>, tags: seq<bv8>, reg: Registries, cp1: seq<bv32>, j: nat)
    requires |words| == |tags| == |cp1| && j < |words|
    requires PassThreeTarget(tags, j) && WellFormedMemberRef(words, tags, j)
    requires MemberRefAfterPassTwo(words, tags, reg, cp1, j)
    requires StableMemberRef(cp1, tags, j)
    ensures PassThreeWord(cp1, tags, reg, j) == ResolvedWord(words, tags, reg, j)
  {
  }

  /** Slot by slot, what pass 3 finds after a successful pass 2 on a well-formed pool. */
  lemma WellFormedAfterPassTwo(words: seq<bv32>, tags: seq<bv8>, reg: Registries, cp1: seq<bv32>, j: nat)
    requires |words| == |tags| == |cp1| && PoolWellFormed(words, tags) && j < |words|
    requires forall k :: 0 <= k < |words| ==> cp1[k] == PassTwoWord(words, tags, reg, k)
    requires forall k :: 0 <= k < |words| ==> PassTwoOutcome(words, tags, cp1[k], k)
    ensures PassThreeTarget(tags, j) ==> StableMemberRef(cp1, tags, j)
    ensures PassThreeWord(cp1, tags, reg, j) == ResolvedWord(words, tags, reg, j)
  {
    if PassThreeTarget(tags, j) {
      KeptByPassTwo(words, tags, reg, cp1, j);
      WellFormedStableAfterPassTwo(words, tags, reg, cp1, j);
      WellFormedMemberAfterPassTwo(words, tags, reg, cp1, j);
    } else {
      assert cp1[j] == PassTwoWord(words, tags, reg, j);
    }
  }

  lemma WellFormedReadyForPassThree(words: seq<bv32>, tags: seq<bv8>, reg: Registries, cp1: seq<bv32>)
    requires |words| == |tags| == |cp1| && PoolWellFormed(words, tags)
    requires forall k :: 0 <= k < |words| ==> cp1[k] == PassTwoWord(words, tags, reg, k)
    requires forall k :: 0 <= k < |words| ==> PassTwoOutcome(words, tags, cp1[k], k)
    ensures ReadyForPassThree(cp1, tags)
    ensures forall j :: 0 <= j < |words| ==> PassThreeWord(cp1, tags, reg, j) == ResolvedWord(words, tags, reg, j)
  {
    forall j: nat | j < |words|
      ensures PassThreeTarget(tags, j) ==> StableMemberRef(cp1, tags, j)
      ensures PassThreeWord(cp1, tags, reg, j) == ResolvedWord(words, tags, reg, j)
    {
      WellFormedAfterPassTwo(words, tags, reg, cp1, j);
    }
  }

  /**
   * Passes 2 and 3 together. On success every visited TYPEREF, STRING and
   * member-reference slot holds a CLASS, STRING or MEMBER word and every
   * other slot is as pass 1 left it. On a well-formed pool the two passes
   * succeed exactly when every string literal can be interned, and then the
   * pool is the one `ResolvedWord` reads off the pass-1 words: forward and
   * backward references resolve alike.
   */
  method ResolvePool(words: seq<bv32>, tags: seq<bv8>, reg: Registries) returns (r: Result<seq<bv32>>)
    requires |words| == |tags|
    ensures r.Ok? ==> |r.value| == |words|
    ensures r.Ok? ==> forall j :: 0 <= j < |words| ==> PoolOutcome(words, tags, r.value[j], j)
    ensures PoolWellFormed(words, tags) ==> (r.Ok? <==> StringsInternable(words, tags, reg))
    ensures PoolWellFormed(words, tags) && r.Ok? ==>
      forall j :: 0 <= j < |words| ==> r.value[j] == ResolvedWord(words, tags, reg, j)
  {
    if PoolWellFormed(words, tags) {
      WellFormedReadyForPassTwo(words, tags);
    }
    var cp1 :- ResolveTypesAndStrings(words, tags, reg);
    if PoolWellFormed(words, tags) {
      WellFormedReadyForPassThree(words, tags, reg, cp1);
    }
    var cp2 :- ResolveMembers(cp1, tags, reg);
    forall j | 0 <= j < |words|
      ensures PoolOutcome(words, tags, cp2[j], j)
    {
      assert PassTwoOutcome(words, tags, cp1[j], j);
      assert PassThreeOutcome(cp1, tags, cp2[j], j);
    }
    return Ok(cp2);
  }
}
