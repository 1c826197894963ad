/**
  The default code table, section 5.6 of RFC 3284, and the choice of opcodes.
  */
module CodeTable {
  import opened Base

  const NOOP := 0
  const ADD := 1
  const RUN := 2
  const CPY := 3
  const MODES := 9

  /** One opcode: up to two half-instructions; a zero size follows as a varint. */
  datatype Entry = Entry(type1: nat, size1: nat, type2: nat, size2: nat)

  /** The table in closed form. */
  function DefaultEntry(code: Byte): Entry {
    if code == 0 then Entry(RUN, 0, NOOP, 0)
    else if code < 19 then Entry(ADD, code - 1, NOOP, 0)
    else if code < 163 then
      var k := (code - 19) % 16;
      Entry(CPY + (code - 19) / 16, if k == 0 then 0 else k + 3, NOOP, 0)
    else if code < 235 then
      var j := code - 163;
      Entry(ADD, j % 12 / 3 + 1, CPY + j / 12, j % 3 + 4)
    else if code < 247 then
      var j := code - 235;
      Entry(ADD, j % 4 + 1, CPY + 6 + j / 4, 4)
    else Entry(CPY + (code - 247), 4, ADD, 1)
  }

  /** Every half-instruction of the table is of a known type, and doubles have both sizes built in. */
  lemma EntryShape(code: Byte)
    ensures var e := DefaultEntry(code);
            && NOOP < e.type1 < CPY + MODES && e.type2 < CPY + MODES
            && (e.type2 != NOOP ==> e.size1 > 0 && e.size2 > 0)
            && (e.type2 == NOOP ==> e.size2 == 0)
  {
  }

  /** The lines of the table in section 5.6 of RFC 3284, from instruction to opcode. */
  lemma TableLines(size: nat, mode: nat)
    requires mode < MODES
    ensures DefaultEntry(0) == Entry(RUN, 0, NOOP, 0)
    ensures size <= 17 ==> DefaultEntry(1 + size) == Entry(ADD, size, NOOP, 0)
    ensures DefaultEntry(19 + 16 * mode) == Entry(CPY + mode, 0, NOOP, 0)
    ensures 4 <= size <= 18 ==> DefaultEntry(19 + 16 * mode + (size - 3)) == Entry(CPY + mode, size, NOOP, 0)
    ensures DefaultEntry(247 + mode) == Entry(CPY + mode, 4, ADD, 1)
  {
  }

  // ---------------------------------------------------------------------
  // Building the table
  // ---------------------------------------------------------------------

  ghost predicate Filled(tbl: array<Entry>, n: nat)
    reads tbl
  {
    n <= tbl.Length == 256 && forall i: Byte :: i < n ==> tbl[i] == DefaultEntry(i)
  }

  method Put(tbl: array<Entry>, idx: nat, e: Entry)
    requires idx < 256 && Filled(tbl, idx) && e == DefaultEntry(idx)
    modifies tbl
    ensures Filled(tbl, idx + 1)
  {
    tbl[idx] := e;
  }

  method BuildSingles(tbl: array<Entry>) returns (idx: nat)
    requires tbl.Length == 256
    modifies tbl
    ensures idx == 163 && Filled(tbl, idx)
  {
    Put(tbl, 0, Entry(RUN, 0, NOOP, 0));
    Put(tbl, 1, Entry(ADD, 0, NOOP, 0));
    idx := 2;
    for size1 := 1 to 18
      invariant idx == 1 + size1 && Filled(tbl, idx)
    {
      Put(tbl, idx, Entry(ADD, size1, NOOP, 0));
      idx := idx + 1;
    }
    for mode := 0 to MODES
      invariant idx == 19 + 16 * mode && Filled(tbl, idx)
    {
      Put(tbl, idx, Entry(CPY + mode, 0, NOOP, 0));
      idx := idx + 1;
      for size1 := MIN_MATCH to MIN_MATCH + 15
        invariant idx == 19 + 16 * mode + size1 - 3 && Filled(tbl, idx)
      {
        Put(tbl, idx, Entry(CPY + mode, size1, NOOP, 0));
        idx := idx + 1;
      }
    }
  }

  /** Where the ADD+COPY opcode for these sizes stands. */
  function AddCopyCode(mode: nat, addSize: nat, cpySize: nat): int {
    if mode < 6 then 163 + 12 * mode + 3 * (addSize - 1) + (cpySize - 4)
    else 235 + 4 * (mode - 6) + (addSize - 1) + (cpySize - 4)
  }

  lemma AddCopyEntry(mode: nat, addSize: nat, cpySize: nat)
    requires mode < MODES && 1 <= addSize <= 4 && 4 <= cpySize <= (if mode < 6 then 6 else 4)
    ensures 163 <= AddCopyCode(mode, addSize, cpySize) < 247
    ensures DefaultEntry(AddCopyCode(mode, addSize, cpySize)) == Entry(ADD, addSize, CPY + mode, cpySize)
  {
    var code := AddCopyCode(mode, addSize, cpySize);
    if mode < 6 {
      AddCopyIndex(code - 163, mode, addSize, cpySize);
    } else {
      AddSameIndex(code - 235, mode, addSize);
    }
  }

  method BuildAddCopy(tbl: array<Entry>, start: nat) returns (idx: nat)
    requires start == 163 && Filled(tbl, start)
    modifies tbl
    ensures idx == 247 && Filled(tbl, idx)
  {
    hide DefaultEntry;
    idx := start;
    for mode := 0 to MODES
      invariant idx == AddCopyCode(mode, 1, 4) && Filled(tbl, idx)
    {
      var cpyMax := if mode < 6 then 6 else 4;
      for addSize := 1 to 5
        invariant idx == AddCopyCode(mode, addSize, 4) && Filled(tbl, idx)
      {
        for cpySize := MIN_MATCH to cpyMax + 1
          invariant idx == AddCopyCode(mode, addSize, cpySize) && Filled(tbl, idx)
        {
          AddCopyEntry(mode, addSize, cpySize);
          Put(tbl, idx, Entry(ADD, addSize, CPY + mode, cpySize));
          idx := idx + 1;
        }
      }
    }
  }

  /** The nested loops fill all 256 entries, each with the closed form. */
  method BuildDefaultCodeTable() returns (tbl: array<Entry>)
    ensures tbl.Length == 256
    ensures forall i: Byte :: tbl[i] == DefaultEntry(i)
  {
    tbl := new Entry[256](_ => Entry(NOOP, 0, NOOP, 0));
    var idx := BuildSingles(tbl);
    idx := BuildAddCopy(tbl, idx);
    for mode := 0 to MODES
      invariant idx == 247 + mode && Filled(tbl, idx)
    {
      var cpyMax := 4;
      for cpySize := MIN_MATCH to cpyMax + 1
        invariant idx == 247 + mode + cpySize - 4 && Filled(tbl, idx)
      {
        for addSize := 1 to 2
          invariant idx == 247 + mode + cpySize - 4 + addSize - 1 && Filled(tbl, idx)
        {
          Put(tbl, idx, Entry(CPY + mode, cpySize, ADD, addSize));
          idx := idx + 1;
        }
      }
    }
  }

  // ---------------------------------------------------------------------
  // Choosing opcodes
  // ---------------------------------------------------------------------

  /** A half-instruction waiting for its opcode. */
  datatype Info = Info(itype: nat, size: nat)

  datatype Chosen = Chosen(code1: Byte, code2: Option<Byte>)

  ghost predicate IsInstruction(i: Info) {
    ADD <= i.itype < CPY + MODES && i.size > 0
  }

  /**
    Opcode for `inst` alone, and the opcode packing it with the queued `prev`
    when the table has one.
    */
  function ChooseInstruction(prev: Option<Info>, inst: Info): Chosen
    requires ADD <= inst.itype < CPY + MODES && inst.size > 0
    requires prev.Some? ==> ADD <= prev.value.itype < CPY + MODES && prev.value.size > 0
  {
    if inst.itype == RUN then Chosen(0, None)
    else if inst.itype == ADD then
      if inst.size <= 17 then
        Chosen(1 + inst.size,
               if inst.size == 1 && prev.Some? && prev.value.size == 4 && prev.value.itype >= CPY
               then Some(247 + (prev.value.itype - CPY)) else None)
      else Chosen(1, None)
    else
      var mode := inst.itype - CPY;
      if 4 <= inst.size <= 18 then
        Chosen(19 + 16 * mode + (inst.size - 3),
               if prev.Some? && prev.value.itype == ADD && prev.value.size <= 4 then
                 if inst.size <= 6 && mode <= 5 then
                   Some(163 + mode * 12 + 3 * (prev.value.size - 1) + (inst.size - 4))
                 else if inst.size == 4 && mode >= 6 then
                   Some(235 + (mode - 6) * 4 + (prev.value.size - 1))
                 else None
               else None)
      else Chosen(19 + 16 * mode, None)
  }

  /** The single opcode names exactly this instruction; its size is built in or left open. */
  lemma SingleOpcode(prev: Option<Info>, inst: Info)
    requires IsInstruction(inst) && (prev.Some? ==> IsInstruction(prev.value))
    ensures var e := DefaultEntry(ChooseInstruction(prev, inst).code1);
            && e.type1 == inst.itype && e.type2 == NOOP
            && (e.size1 == 0 || e.size1 == inst.size)
            && (e.size1 == 0 <==> forall c: Byte :: DefaultEntry(c) != Entry(inst.itype, inst.size, NOOP, 0))
  {
    if inst.itype == ADD {
      assert forall c: Byte :: DefaultEntry(c) == Entry(ADD, inst.size, NOOP, 0) ==> inst.size <= 17;
      assert inst.size <= 17 ==> DefaultEntry(1 + inst.size) == Entry(ADD, inst.size, NOOP, 0);
    }
  }

  lemma AddCopyIndex(j: nat, mode: nat, add: nat, copy: nat)
    requires j < 72
    ensures j / 12 == mode && j % 12 / 3 + 1 == add && j % 3 + 4 == copy
       <==> mode < 6 && 1 <= add <= 4 && 4 <= copy <= 6 && j == mode * 12 + 3 * (add - 1) + (copy - 4)
  {
  }

  lemma AddSameIndex(j: nat, mode: nat, add: nat)
    requires j < 12
    ensures 6 + j / 4 == mode && j % 4 + 1 == add
       <==> 6 <= mode < 9 && 1 <= add <= 4 && j == (mode - 6) * 4 + (add - 1)
  {
  }

  /** Two instructions are packed exactly when the table has an opcode for the pair. */
  lemma DoubleOpcode(prev: Info, inst: Info, code: Byte)
    requires IsInstruction(prev) && IsInstruction(inst)
    ensures ChooseInstruction(Some(prev), inst).code2 == Some(code)
       <==> DefaultEntry(code) == Entry(prev.itype, prev.size, inst.itype, inst.size)
  {
    if inst.itype >= CPY && prev.itype == ADD {
      if 163 <= code < 235 {
        AddCopyIndex(code - 163, inst.itype - CPY, prev.size, inst.size);
      } else if 235 <= code < 247 {
        AddSameIndex(code - 235, inst.itype - CPY, prev.size);
      }
    }
  }
}
