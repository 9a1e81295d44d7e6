/** The two ways a tree item stores its flags: four bits of one word, or four characters. Which one
    is compiled in depends on the ABI version. */
module TreeFlags {
  import opened Integers

  const OPEN: bv16 := 1
  const VISIBLE: bv16 := 2
  const ACTIVE: bv16 := 4
  const SELECTED: bv16 := 8

  /** The four states, independent of their storage. */
  datatype Flags = Flags(open: bool, visible: bool, active: bool, selected: bool)

  function SetFlag(f: Flags, flag: bv16, on: bool): Flags
  {
    if flag == OPEN then f.(open := on)
    else if flag == VISIBLE then f.(visible := on)
    else if flag == ACTIVE then f.(active := on)
    else if flag == SELECTED then f.(selected := on)
    else f
  }

  function IsFlag(f: Flags, flag: bv16): bool
  {
    if flag == OPEN then f.open
    else if flag == VISIBLE then f.visible
    else if flag == ACTIVE then f.active
    else if flag == SELECTED then f.selected
    else false
  }

  predicate SingleFlag(flag: bv16)
  {
    flag == OPEN || flag == VISIBLE || flag == ACTIVE || flag == SELECTED
  }

  // ----- storage in bits

  function SetBits(w: bv16, flag: bv16, val: int): bv16
  {
    if val != 0 then w | flag else w & !flag
  }

  function TestBits(w: bv16, flag: bv16): bool
  {
    w & flag != 0
  }

  function FromBits(w: bv16): Flags
  {
    Flags(w & OPEN != 0, w & VISIBLE != 0, w & ACTIVE != 0, w & SELECTED != 0)
  }

  // ----- storage in characters

  datatype Chars = Chars(open: int, visible: int, active: int, selected: int)

  function SetChars(c: Chars, flag: bv16, val: int): Chars
  {
    if flag == OPEN then c.(open := Char8(val))
    else if flag == VISIBLE then c.(visible := Char8(val))
    else if flag == ACTIVE then c.(active := Char8(val))
    else if flag == SELECTED then c.(selected := Char8(val))
    else c
  }

  function TestChars(c: Chars, flag: bv16): bool
  {
    if flag == OPEN then c.open != 0
    else if flag == VISIBLE then c.visible != 0
    else if flag == ACTIVE then c.active != 0
    else if flag == SELECTED then c.selected != 0
    else false
  }

  function FromChars(c: Chars): Flags
  {
    Flags(c.open != 0, c.visible != 0, c.active != 0, c.selected != 0)
  }

  // ----- both refine the same four states

  lemma BitsRefine(w: bv16, flag: bv16, val: int)
    requires SingleFlag(flag)
    ensures FromBits(SetBits(w, flag, val)) == SetFlag(FromBits(w), flag, val != 0)
    ensures TestBits(w, flag) == IsFlag(FromBits(w), flag)
  {
    if flag == OPEN {
      OpenBit(w, val);
    } else if flag == VISIBLE {
      VisibleBit(w, val);
    } else if flag == ACTIVE {
      ActiveBit(w, val);
    } else {
      SelectedBit(w, val);
    }
  }

  lemma OpenBit(w: bv16, val: int)
    ensures FromBits(SetBits(w, OPEN, val)) == FromBits(w).(open := val != 0)
  {
  }

  lemma VisibleBit(w: bv16, val: int)
    ensures FromBits(SetBits(w, VISIBLE, val)) == FromBits(w).(visible := val != 0)
  {
  }

  lemma ActiveBit(w: bv16, val: int)
    ensures FromBits(SetBits(w, ACTIVE, val)) == FromBits(w).(active := val != 0)
  {
  }

  lemma SelectedBit(w: bv16, val: int)
    ensures FromBits(SetBits(w, SELECTED, val)) == FromBits(w).(selected := val != 0)
  {
  }

  /** The character version loses a value whose low eight bits are zero. */
  lemma CharsRefine(c: Chars, flag: bv16, val: int)
    requires SingleFlag(flag)
    ensures FromChars(SetChars(c, flag, val)) == SetFlag(FromChars(c), flag, val != 0)
            <==> (val == 0 || val % 256 != 0)
    ensures TestChars(c, flag) == IsFlag(FromChars(c), flag)
  {
  }

  // ----- exactly which flags the two versions agree on

  /** From any two states that stand for the same flags, the two versions give the same answer. */
  ghost predicate TestsAgree(flag: bv16)
  {
    forall w, c | FromBits(w) == FromChars(c) :: TestBits(w, flag) == TestChars(c, flag)
  }

  /** ... and after the same setting stand for the same flags again. */
  ghost predicate SetsAgree(flag: bv16, val: int)
  {
    forall w, c | FromBits(w) == FromChars(c) ::
      FromBits(SetBits(w, flag, val)) == FromChars(SetChars(c, flag, val))
  }

  function CharsOf(f: Flags): (c: Chars)
    ensures FromChars(c) == f
  {
    Chars(if f.open then 1 else 0, if f.visible then 1 else 0,
          if f.active then 1 else 0, if f.selected then 1 else 0)
  }

  /** A mask that is not one of the flags finds a bit set where the characters know of none. */
  lemma MaskFindsBit(flag: bv16)
    requires !SingleFlag(flag) && flag != 0
    ensures TestBits(flag, flag) && !TestChars(CharsOf(FromBits(flag)), flag)
  {
  }

  lemma TestsAgreeIff(flag: bv16)
    ensures TestsAgree(flag) <==> SingleFlag(flag) || flag == 0
  {
    hide FromBits, FromChars, TestBits, TestChars;
    if SingleFlag(flag) {
      forall w, c | FromBits(w) == FromChars(c)
        ensures TestBits(w, flag) == TestChars(c, flag)
      {
        BitsRefine(w, flag, 0);
        CharsRefine(c, flag, 0);
      }
    } else if flag == 0 {
      NoFlag();
    } else {
      MaskFindsBit(flag);
      var c := CharsOf(FromBits(flag));
      assert FromBits(flag) == FromChars(c);
    }
  }

  lemma NoFlag()
    ensures forall w :: !TestBits(w, 0)
    ensures forall c :: !TestChars(c, 0)
  {
  }

  lemma SetsAgreeIff(flag: bv16, val: int)
    ensures SetsAgree(flag, val)
            <==> (SingleFlag(flag) && (val == 0 || val % 256 != 0)) || flag & 15 == 0
  {
    hide FromBits, FromChars, SetBits, SetChars;
    if SingleFlag(flag) {
      SingleSetsAgreeIff(flag, val);
    } else if flag & 15 == 0 {
      forall w, c | FromBits(w) == FromChars(c)
        ensures FromBits(SetBits(w, flag, val)) == FromChars(SetChars(c, flag, val))
      {
        OtherBits(w, flag, val);
        MaskSetsNoChar(c, flag, val);
      }
    } else {
      var w := if val == 0 then 15 else 0;
      var c := CharsOf(FromBits(w));
      assert FromBits(w) == FromChars(c);
      MaskSetsABit(flag, val);
      MaskSetsNoChar(c, flag, val);
    }
  }

  lemma SingleSetsAgreeIff(flag: bv16, val: int)
    requires SingleFlag(flag)
    ensures SetsAgree(flag, val) <==> (val == 0 || val % 256 != 0)
    ensures flag & 15 != 0
  {
    hide FromBits, FromChars, SetBits, SetChars;
    if val == 0 || val % 256 != 0 {
      forall w, c | FromBits(w) == FromChars(c)
        ensures FromBits(SetBits(w, flag, val)) == FromChars(SetChars(c, flag, val))
      {
        BitsRefine(w, flag, val);
        CharsRefine(c, flag, val);
      }
    } else {
      var c := CharsOf(FromBits(0));
      assert FromBits(0) == FromChars(c);
      BitsRefine(0, flag, val);
      CharsRefine(c, flag, val);
    }
  }

  lemma OtherBits(w: bv16, flag: bv16, val: int)
    requires flag & 15 == 0
    ensures FromBits(SetBits(w, flag, val)) == FromBits(w)
  {
    hide SetBits;
    OtherBit(w, flag, val, OPEN);
    OtherBit(w, flag, val, VISIBLE);
    OtherBit(w, flag, val, ACTIVE);
    OtherBit(w, flag, val, SELECTED);
  }

  lemma OtherBit(w: bv16, flag: bv16, val: int, bit: bv16)
    requires flag & 15 == 0 && bit & 15 == bit
    ensures SetBits(w, flag, val) & bit == w & bit
  {
    assert flag & bit == 0 by {
      assert flag & bit == flag & (bit & 15);
      assert flag & (bit & 15) == (flag & 15) & bit;
    }
  }

  lemma MaskSetsABit(flag: bv16, val: int)
    requires flag & 15 != 0
    ensures var w := if val == 0 then 15 else 0; FromBits(SetBits(w, flag, val)) != FromBits(w)
  {
  }

  lemma MaskSetsNoChar(c: Chars, flag: bv16, val: int)
    requires !SingleFlag(flag)
    ensures SetChars(c, flag, val) == c
  {
  }

  // ----- runs

  datatype Access = Access(flag: bv16, val: int)

  function RunBits(w: bv16, steps: seq<Access>): bv16
  {
    if steps == [] then w
    else var s := steps[|steps| - 1]; SetBits(RunBits(w, steps[..|steps| - 1]), s.flag, s.val)
  }

  function RunChars(c: Chars, steps: seq<Access>): Chars
  {
    if steps == [] then c
    else var s := steps[|steps| - 1]; SetChars(RunChars(c, steps[..|steps| - 1]), s.flag, s.val)
  }

  /** Through every run of settings on which the two versions agree, they keep standing for the
      same flags; asked about a single flag, or about none, they cannot be told apart. */
  lemma {:induction false} VersionsAgree(w: bv16, c: Chars, steps: seq<Access>)
    requires FromBits(w) == FromChars(c)
    requires forall s :: s in steps ==> SetsAgree(s.flag, s.val)
    ensures FromBits(RunBits(w, steps)) == FromChars(RunChars(c, steps))
    ensures forall flag :: SingleFlag(flag) || flag == 0
                           ==> TestBits(RunBits(w, steps), flag) == TestChars(RunChars(c, steps), flag)
  {
    hide FromBits, FromChars, TestBits, TestChars, SetBits, SetChars;
    if steps != [] {
      var s, rest := steps[|steps| - 1], steps[..|steps| - 1];
      assert s in steps && forall x :: x in rest ==> x in steps;
      VersionsAgree(w, c, rest);
    }
    forall flag | SingleFlag(flag) || flag == 0
      ensures TestBits(RunBits(w, steps), flag) == TestChars(RunChars(c, steps), flag)
    {
      TestsAgreeIff(flag);
    }
  }

  /** Asked about two flags at once, the bit version answers "any of them", the other "no". */
  lemma VersionsDifferOnMasks()
    ensures TestBits(SetBits(0, OPEN, 1), OPEN | VISIBLE)
            && !TestChars(SetChars(Chars(0, 0, 0, 0), OPEN, 1), OPEN | VISIBLE)
  {
  }
}
