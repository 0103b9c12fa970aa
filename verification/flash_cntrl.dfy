/**
 * The flash register engine (Core/Src/flash_cntrl.c) as transitions over an
 * immutable record of the STM32F4 flash interface registers and the memory
 * behind it.
 *
 * Register bit positions are the CMSIS ones for the STM32F4 (the device
 * header is not part of this model). Busy-waits on SR.BSY are taken to
 * terminate. The reaction of the controller to the code's register writes is
 * kept to what the code relies on and is stated next to each helper.
 */
module FlashCntrl {
  import opened Machine

  /** ERR_StateType, in declaration order. */
  datatype ErrState =
    | OkState
    | ProgrammingSequenceError
    | ProgrammingParallelismError
    | ProgrammingAlignmentError
    | WriteProtectionError

  /** The C enumerator value of each ERR_StateType constant. */
  function Ordinal(e: ErrState): (n: nat)
    ensures n < 5
  {
    match e
    case OkState => 0
    case ProgrammingSequenceError => 1
    case ProgrammingParallelismError => 2
    case ProgrammingAlignmentError => 3
    case WriteProtectionError => 4
  }

  function FromOrdinal(n: nat): (e: ErrState)
    requires n < 5
    ensures Ordinal(e) == n
  {
    if n == 0 then OkState
    else if n == 1 then ProgrammingSequenceError
    else if n == 2 then ProgrammingParallelismError
    else if n == 3 then ProgrammingAlignmentError
    else WriteProtectionError
  }

  /** ERR_StateType has exactly the five values 0..4, one constant each. */
  lemma ErrStateHasFiveValues(e: ErrState, n: nat)
    requires n < 5
    ensures FromOrdinal(Ordinal(e)) == e
    ensures Ordinal(FromOrdinal(n)) == n
  {
  }

  /**
   * What Flash_Errors_Check returns: a value it assigned to its local, or
   * that local uninitialised (no checked flag was set).
   */
  datatype Status = Reported(state: ErrState) | Indeterminate

  // FLASH_CR bits.
  const CrPg: Word := 0x0000_0001
  const CrSer: Word := 0x0000_0002
  const CrSnbPos: bv5 := 3
  const CrSnb: Word := 0x0000_00F8
  const CrPsize: Word := 0x0000_0300
  const CrPsize1: Word := 0x0000_0200
  const CrStrt: Word := 0x0001_0000
  const CrLock: Word := 0x8000_0000

  // FLASH_SR flags.
  const SrEop: Word := 0x0000_0001
  const SrOperr: Word := 0x0000_0002
  const SrWrperr: Word := 0x0000_0010
  const SrPgaerr: Word := 0x0000_0020
  const SrPgperr: Word := 0x0000_0040
  const SrPgserr: Word := 0x0000_0080
  const SrRderr: Word := 0x0000_0100
  /** The four error flags Flash_Errors_Check inspects. */
  const SrCheckedErrors: Word := 0x0000_00F0
  /** The SR flags that writing 1 clears: EOP, OPERR, WRPERR..PGSERR, RDERR. */
  const SrClearOnWrite: Word := 0x0000_01F3

  // FLASH_OPTCR bits.
  const OptcrOptlock: Word := 0x0000_0001
  const OptcrOptstrt: Word := 0x0000_0002
  const NWrpPos: bv5 := 16
  /** Sectors with an nWRP bit in OPTCR (bits 16..27). */
  const WrpSectors: Word := 12
  /**
   * `(1 << sector_num) << 16` is computed on a signed `int`: it is defined
   * for sector numbers 0..14 only.
   */
  const WrpShiftDefined: Word := 15

  // Key sequences.
  const Key1: Word := 0x4567_0123
  const Key2: Word := 0xCDEF_89AB
  const OptKey1: Word := 0x0819_2A3B
  const OptKey2: Word := 0x4C5D_6E7F

  /**
   * The flash interface: CR, SR and OPTCR as words, KEYR and OPTKEYR as the
   * logs of the values written to them (both are write-only), and memory.
   */
  datatype FlashRegs = FlashRegs(
    cr: Word,
    sr: Word,
    optcr: Word,
    keyr: seq<Word>,
    optkeyr: seq<Word>,
    mem: Mem)

  /** Registers after an operation, and the value the operation returned. */
  datatype Step = Step(regs: FlashRegs, status: Status)

  datatype ReadStep = ReadStep(regs: FlashRegs, data: Word, status: Status)

  predicate IsSet(reg: Word, mask: Word) {
    reg & mask == mask
  }

  /** `reg |= mask`: the bits of `mask` set, the others kept. */
  function SetBits(reg: Word, mask: Word): Word {
    reg | mask
  }

  /** `reg &= ~mask`: the bits of `mask` cleared, the others kept. */
  function ClearBits(reg: Word, mask: Word): Word {
    reg & !mask
  }

  /** SR after the code writes `v` to it: each clear-on-write flag written as 1 is cleared. */
  function SrWrite(sr: Word, v: Word): Word {
    sr & !(v & SrClearOnWrite)
  }

  /**
   * `FLASH->SR |= flag` reads SR and writes the value back with `flag` added,
   * so it writes 1 to every flag that was set and clears all of them, not
   * only `flag`.
   */
  lemma OrWriteClearsAll(sr: Word, flag: Word)
    requires flag & !SrClearOnWrite == 0
    ensures SrWrite(sr, sr | flag) == sr & !SrClearOnWrite
  {
  }

  /**
   * The error an SR value reports: the first flag Flash_Errors_Check finds
   * set, in its order PGSERR, PGPERR, PGAERR, WRPERR.
   */
  function Classify(sr: Word): Status {
    if IsSet(sr, SrPgserr) then Reported(ProgrammingSequenceError)
    else if IsSet(sr, SrPgperr) then Reported(ProgrammingParallelismError)
    else if IsSet(sr, SrPgaerr) then Reported(ProgrammingAlignmentError)
    else if IsSet(sr, SrWrperr) then Reported(WriteProtectionError)
    else Indeterminate
  }

  /**
   * SR once Flash_Errors_Check has run: untouched when no checked flag was
   * set, and otherwise with every clear-on-write flag cleared.
   */
  function Checked(sr: Word): (c: Word)
    ensures c & SrCheckedErrors == 0
    ensures sr & SrCheckedErrors == 0 ==> c == sr
    ensures c & !SrClearOnWrite == sr & !SrClearOnWrite
  {
    if sr & SrCheckedErrors == 0 then sr else ClearBits(sr, SrClearOnWrite)
  }

  /** The state of Flash_Errors_Check part way through its scan of SR. */
  datatype Scan = Scan(sr: Word, found: Status)

  /** One `if` of Flash_Errors_Check: a set flag is recorded and `SR |= flag` is written. */
  function CheckFlag(acc: Scan, flag: Word, e: ErrState): Scan {
    if IsSet(acc.sr, flag) then Scan(SrWrite(acc.sr, acc.sr | flag), Reported(e)) else acc
  }

  /**
   * The four `if`s of Flash_Errors_Check, in the order PGSERR, PGPERR,
   * PGAERR, WRPERR. The first flag found set clears the others, so it is the
   * one reported.
   */
  function ScanFlags(a0: Scan): (r: Scan)
    ensures r.sr == Checked(a0.sr)
    ensures r.found == if a0.sr & SrCheckedErrors == 0 then a0.found else Classify(a0.sr)
  {
    if a0.sr & SrCheckedErrors == 0 then
      ScanNone(a0);
      ScanSteps(a0)
    else if IsSet(a0.sr, SrPgserr) then
      ScanFirst(a0);
      ScanSteps(a0)
    else if IsSet(a0.sr, SrPgperr) then
      ScanSecond(a0);
      ScanSteps(a0)
    else if IsSet(a0.sr, SrPgaerr) then
      ScanThird(a0);
      ScanSteps(a0)
    else
      SomeSet(a0.sr);
      ScanFourth(a0);
      ScanSteps(a0)
  }

  /** The four `if`s one after the other. */
  function ScanSteps(a0: Scan): Scan {
    var a1 := CheckFlag(a0, SrPgserr, ProgrammingSequenceError);
    var a2 := CheckFlag(a1, SrPgperr, ProgrammingParallelismError);
    var a3 := CheckFlag(a2, SrPgaerr, ProgrammingAlignmentError);
    CheckFlag(a3, SrWrperr, WriteProtectionError)
  }

  /** An `if` whose flag is clear changes nothing. */
  lemma StepSkips(a: Scan, flag: Word, e: ErrState)
    requires !IsSet(a.sr, flag)
    ensures CheckFlag(a, flag, e) == a
  {
  }

  /** An `if` whose flag is set records it and clears every clear-on-write flag. */
  lemma StepFires(a: Scan, flag: Word, e: ErrState)
    requires IsSet(a.sr, flag) && flag & !SrClearOnWrite == 0
    ensures CheckFlag(a, flag, e) == Scan(ClearBits(a.sr, SrClearOnWrite), Reported(e))
  {
    OrWriteClearsAll(a.sr, flag);
  }

  /** No checked flag set: nothing is reported and SR is untouched. */
  lemma ScanNone(a0: Scan)
    requires a0.sr & SrCheckedErrors == 0
    ensures ScanSteps(a0).sr == Checked(a0.sr) && ScanSteps(a0).found == a0.found
  {
    NoneSet(a0.sr);
    StepSkips(a0, SrPgserr, ProgrammingSequenceError);
    StepSkips(a0, SrPgperr, ProgrammingParallelismError);
    StepSkips(a0, SrPgaerr, ProgrammingAlignmentError);
    StepSkips(a0, SrWrperr, WriteProtectionError);
  }

  /** PGSERR set: it is reported, and the flags end cleared. */
  lemma ScanFirst(a0: Scan)
    requires IsSet(a0.sr, SrPgserr)
    ensures a0.sr & SrCheckedErrors != 0
    ensures ScanSteps(a0).sr == Checked(a0.sr) && ScanSteps(a0).found == Classify(a0.sr)
  {
    FirstSet(a0.sr);
    var a1 := Scan(ClearBits(a0.sr, SrClearOnWrite), Reported(ProgrammingSequenceError));
    StepFires(a0, SrPgserr, ProgrammingSequenceError);
    ClearedNone(a0.sr);
    NoneSet(a1.sr);
    StepSkips(a1, SrPgperr, ProgrammingParallelismError);
    StepSkips(a1, SrPgaerr, ProgrammingAlignmentError);
    StepSkips(a1, SrWrperr, WriteProtectionError);
  }

  /** PGPERR the first flag set: it is reported, and the flags end cleared. */
  lemma ScanSecond(a0: Scan)
    requires !IsSet(a0.sr, SrPgserr) && IsSet(a0.sr, SrPgperr)
    ensures a0.sr & SrCheckedErrors != 0
    ensures ScanSteps(a0).sr == Checked(a0.sr) && ScanSteps(a0).found == Classify(a0.sr)
  {
    SecondSet(a0.sr);
    var a2 := Scan(ClearBits(a0.sr, SrClearOnWrite), Reported(ProgrammingParallelismError));
    StepSkips(a0, SrPgserr, ProgrammingSequenceError);
    StepFires(a0, SrPgperr, ProgrammingParallelismError);
    ClearedNone(a0.sr);
    NoneSet(a2.sr);
    StepSkips(a2, SrPgaerr, ProgrammingAlignmentError);
    StepSkips(a2, SrWrperr, WriteProtectionError);
  }

  /** PGAERR the first flag set: it is reported, and the flags end cleared. */
  lemma ScanThird(a0: Scan)
    requires !IsSet(a0.sr, SrPgserr) && !IsSet(a0.sr, SrPgperr) && IsSet(a0.sr, SrPgaerr)
    ensures a0.sr & SrCheckedErrors != 0
    ensures ScanSteps(a0).sr == Checked(a0.sr) && ScanSteps(a0).found == Classify(a0.sr)
  {
    ThirdSet(a0.sr);
    var a3 := Scan(ClearBits(a0.sr, SrClearOnWrite), Reported(ProgrammingAlignmentError));
    StepSkips(a0, SrPgserr, ProgrammingSequenceError);
    StepSkips(a0, SrPgperr, ProgrammingParallelismError);
    StepFires(a0, SrPgaerr, ProgrammingAlignmentError);
    ClearedNone(a0.sr);
    NoneSet(a3.sr);
    StepSkips(a3, SrWrperr, WriteProtectionError);
  }

  /** WRPERR the only flag set: it is reported, and the flags end cleared. */
  lemma ScanFourth(a0: Scan)
    requires !IsSet(a0.sr, SrPgserr) && !IsSet(a0.sr, SrPgperr) && !IsSet(a0.sr, SrPgaerr) && IsSet(a0.sr, SrWrperr)
    ensures a0.sr & SrCheckedErrors != 0
    ensures ScanSteps(a0).sr == Checked(a0.sr) && ScanSteps(a0).found == Classify(a0.sr)
  {
    FourthSet(a0.sr);
    StepSkips(a0, SrPgserr, ProgrammingSequenceError);
    StepSkips(a0, SrPgperr, ProgrammingParallelismError);
    StepSkips(a0, SrPgaerr, ProgrammingAlignmentError);
    StepFires(a0, SrWrperr, WriteProtectionError);
  }

  /** Clearing every clear-on-write flag leaves no checked flag set. */
  lemma ClearedNone(sr: Word)
    ensures ClearBits(sr, SrClearOnWrite) & SrCheckedErrors == 0
  {
  }

  /** With no checked flag set, none of the four `if`s fires. */
  lemma NoneSet(x: Word)
    requires x & SrCheckedErrors == 0
    ensures !IsSet(x, SrPgserr) && !IsSet(x, SrPgperr)
    ensures !IsSet(x, SrPgaerr) && !IsSet(x, SrWrperr)
  {
  }

  /** Each of the four flags lies in the checked set. */
  lemma FirstSet(x: Word)
    requires IsSet(x, SrPgserr)
    ensures x & SrCheckedErrors != 0
  {
  }

  lemma SecondSet(x: Word)
    requires IsSet(x, SrPgperr)
    ensures x & SrCheckedErrors != 0
  {
  }

  lemma ThirdSet(x: Word)
    requires IsSet(x, SrPgaerr)
    ensures x & SrCheckedErrors != 0
  {
  }

  lemma FourthSet(x: Word)
    requires IsSet(x, SrWrperr)
    ensures x & SrCheckedErrors != 0
  {
  }

  /** With some checked flag set, one of the four `if`s fires. */
  lemma SomeSet(x: Word)
    requires x & SrCheckedErrors != 0
    ensures IsSet(x, SrPgserr) || IsSet(x, SrPgperr) || IsSet(x, SrPgaerr) || IsSet(x, SrWrperr)
  {
  }

  /**
   * Flash_Errors_Check as written: the local `error_type` is never initialised,
   * so when no checked flag is set the function returns an unassigned value.
   */
  function ErrorsCheck(s: FlashRegs): (r: Step)
    ensures r.status == Classify(s.sr)
    ensures r.status != Reported(OkState)
    ensures r.status == Indeterminate <==> s.sr & SrCheckedErrors == 0
    ensures r.regs == s.(sr := Checked(s.sr))
  {
    var a := ScanFlags(Scan(s.sr, Indeterminate));
    Step(s.(sr := a.sr), a.found)
  }

  /**
   * Flash_Errors_Check with `error_type` initialised to Ok_State: the
   * result is OK exactly when no checked flag is set, and otherwise the same
   * error as before.
   */
  function ErrorsCheckInit(s: FlashRegs): (r: Step)
    ensures r.status != Indeterminate
    ensures r.status == Reported(OkState) <==> s.sr & SrCheckedErrors == 0
    ensures s.sr & SrCheckedErrors != 0 ==> r.status == ErrorsCheck(s).status
    ensures r.regs == ErrorsCheck(s).regs
  {
    var a := ScanFlags(Scan(s.sr, Reported(OkState)));
    Step(s.(sr := a.sr), a.found)
  }

  /**
   * When several checked flags are set, the result names the first one the
   * scan reaches, and the read-modify-write that clears it clears the others
   * too.
   */
  lemma FirstFlagWins(s: FlashRegs)
    requires IsSet(s.sr, SrPgserr) && IsSet(s.sr, SrWrperr)
    ensures ErrorsCheck(s).status == Reported(ProgrammingSequenceError)
    ensures ErrorsCheck(s).regs.sr & SrClearOnWrite == 0
  {
  }

  /**
   * A KEYR write. The controller clears CR.LOCK when KEY2 directly follows
   * KEY1 (the unlock sequence of the STM32F4 reference manual).
   */
  function KeyrWrite(s: FlashRegs, k: Word): FlashRegs {
    var unlocks := k == Key2 && |s.keyr| > 0 && s.keyr[|s.keyr| - 1] == Key1;
    s.(keyr := s.keyr + [k], cr := if unlocks then ClearBits(s.cr, CrLock) else s.cr)
  }

  /** An OPTKEYR write; OPTKEY2 directly after OPTKEY1 clears OPTCR.OPTLOCK. */
  function OptkeyrWrite(s: FlashRegs, k: Word): FlashRegs {
    var unlocks := k == OptKey2 && |s.optkeyr| > 0 && s.optkeyr[|s.optkeyr| - 1] == OptKey1;
    s.(optkeyr := s.optkeyr + [k], optcr := if unlocks then ClearBits(s.optcr, OptcrOptlock) else s.optcr)
  }

  /** KEY1 then KEY2: the log records both and CR.LOCK is cleared. */
  function KeySequence(s: FlashRegs): (r: FlashRegs)
    ensures r == s.(keyr := s.keyr + [Key1, Key2], cr := ClearBits(s.cr, CrLock))
  {
    var s1 := KeyrWrite(s, Key1);
    assert s1.keyr[|s1.keyr| - 1] == Key1;
    KeyrWrite(s1, Key2)
  }

  /**
   * Flash_Init: write the key sequence, select x32 parallelism, then lock.
   * The key sequence unlocks CR, so the three CR writes after it take effect.
   */
  function Init(s: FlashRegs): (r: FlashRegs)
    ensures r.keyr == s.keyr + [Key1, Key2]
    ensures r == s.(cr := r.cr, keyr := r.keyr)
  {
    var s1 := KeySequence(s);
    var s2 := s1.(cr := ClearBits(s1.cr, CrPsize));
    var s3 := s2.(cr := SetBits(s2.cr, CrPsize1));
    s3.(cr := SetBits(s3.cr, CrLock))
  }

  /** CR after Flash_Init: PSIZE selects x32, LOCK is set, and no other bit moved. */
  lemma InitCr(s: FlashRegs)
    ensures Init(s).cr & CrPsize == CrPsize1
    ensures IsSet(Init(s).cr, CrLock)
    ensures ClearBits(Init(s).cr, CrPsize | CrLock) == ClearBits(s.cr, CrPsize | CrLock)
  {
    InitCrBits(s.cr);
  }

  lemma InitCrBits(c: Word)
    ensures var c' := SetBits(SetBits(ClearBits(ClearBits(c, CrLock), CrPsize), CrPsize1), CrLock);
            && c' & CrPsize == CrPsize1
            && IsSet(c', CrLock)
            && ClearBits(c', CrPsize | CrLock) == ClearBits(c, CrPsize | CrLock)
  {
  }

  /** Flash_Lock: set CR.LOCK; the wait loop ends once it reads back set. */
  function Lock(s: FlashRegs): (r: FlashRegs)
    ensures IsSet(r.cr, CrLock)
    ensures ClearBits(r.cr, CrLock) == ClearBits(s.cr, CrLock)
    ensures r == s.(cr := r.cr)
  {
    SetLock(s.cr);
    s.(cr := SetBits(s.cr, CrLock))
  }

  lemma SetLock(c: Word)
    ensures IsSet(SetBits(c, CrLock), CrLock)
    ensures ClearBits(SetBits(c, CrLock), CrLock) == ClearBits(c, CrLock)
  {
  }

  lemma ClearLock(c: Word)
    ensures !IsSet(ClearBits(c, CrLock), CrLock)
    ensures SetBits(ClearBits(c, CrLock), CrLock) == SetBits(c, CrLock)
  {
  }

  /** Flash_Unlock: KEY1 then KEY2 into KEYR, which clears CR.LOCK. */
  function Unlock(s: FlashRegs): (r: FlashRegs)
    ensures r.keyr == s.keyr + [Key1, Key2]
    ensures !IsSet(r.cr, CrLock)
    ensures SetBits(r.cr, CrLock) == SetBits(s.cr, CrLock)
    ensures r == s.(cr := r.cr, keyr := r.keyr)
  {
    ClearLock(s.cr);
    KeySequence(s)
  }

  /** Locking after unlocking, or unlocking after locking, touches only LOCK. */
  lemma LockUnlockRoundTrip(s: FlashRegs)
    ensures Lock(Unlock(s)).cr == SetBits(s.cr, CrLock)
    ensures Unlock(Lock(s)).cr == ClearBits(s.cr, CrLock)
  {
  }

  /**
   * `raised` is what the controller adds to SR while an operation runs (an
   * oracle: the hardware's verdict). It accepts the operation when it raises
   * none of the checked error flags.
   */
  predicate Accepted(raised: Word) {
    raised & SrCheckedErrors == 0
  }

  /** A CR write: the controller ignores it while CR.LOCK is set. */
  function CrWrite(s: FlashRegs, v: Word): (r: FlashRegs)
    ensures IsSet(s.cr, CrLock) ==> r == s
    ensures !IsSet(s.cr, CrLock) ==> r == s.(cr := v)
  {
    if IsSet(s.cr, CrLock) then s else s.(cr := v)
  }

  /**
   * Whether CR.PG is set when Flash_Write stores its word: either the PG write
   * takes effect (CR unlocked) or PG was already set.
   */
  predicate Programmable(cr: Word) {
    !IsSet(cr, CrLock) || IsSet(cr, CrPg)
  }

  /**
   * The store `*(uint32_t *)address = data` and the controller's reaction: with
   * CR.PG set it programs the word (unless it raises an error); without PG
   * the access is a programming sequence error and nothing is written.
   */
  function ProgramStore(s: FlashRegs, a: Word, d: Word, raised: Word): FlashRegs {
    if IsSet(s.cr, CrPg) then
      s.(mem := if Accepted(raised) then Program(s.mem, a, d) else s.mem, sr := s.sr | raised)
    else
      s.(sr := s.sr | SrPgserr | raised)
  }

  /**
   * Flash_Write: set PG, store the word, clear PG, check errors. Only CR, SR
   * and memory can change.
   */
  function Write(s: FlashRegs, a: Word, d: Word, raised: Word): (r: Step)
    ensures r.regs == s.(cr := r.regs.cr, sr := r.regs.sr, mem := r.regs.mem)
  {
    ErrorsCheck(PgStore(s, a, d, raised))
  }

  /** The PG set, the store and the PG clear of Flash_Write, before its error check. */
  function PgStore(s: FlashRegs, a: Word, d: Word, raised: Word): (t: FlashRegs)
    ensures t == s.(cr := t.cr, sr := t.sr, mem := t.mem)
  {
    var s1 := CrWrite(s, SetBits(s.cr, CrPg));
    var s2 := ProgramStore(s1, a, d, raised);
    CrWrite(s2, ClearBits(s2.cr, CrPg))
  }

  /**
   * SR once Flash_Write's store is done, before the error check: what the
   * controller raised when PG was set at the store, PGSERR added when it was not.
   */
  lemma UnlockedPgStoreSr(s: FlashRegs, a: Word, d: Word, raised: Word)
    requires !IsSet(s.cr, CrLock)
    ensures PgStore(s, a, d, raised).sr == s.sr | raised
  {
    PgSet(s.cr);
  }

  lemma LockedPgStoreSr(s: FlashRegs, a: Word, d: Word, raised: Word)
    requires IsSet(s.cr, CrLock) && IsSet(s.cr, CrPg)
    ensures PgStore(s, a, d, raised).sr == s.sr | raised
  {
  }

  lemma RefusedPgStoreSr(s: FlashRegs, a: Word, d: Word, raised: Word)
    requires IsSet(s.cr, CrLock) && !IsSet(s.cr, CrPg)
    ensures PgStore(s, a, d, raised).sr == s.sr | SrPgserr | raised
  {
  }

  /** Setting PG leaves LOCK as it was, and PG reads set. */
  lemma PgSet(cr: Word)
    ensures IsSet(SetBits(cr, CrPg), CrLock) == IsSet(cr, CrLock)
    ensures IsSet(SetBits(cr, CrPg), CrPg)
  {
  }

  /** Clearing PG after setting it is the same as clearing it. */
  lemma PgSetThenCleared(cr: Word)
    ensures ClearBits(SetBits(cr, CrPg), CrPg) == ClearBits(cr, CrPg)
  {
  }

  /**
   * Flash_Write's CR writes take effect only on an unlocked controller: there
   * it leaves PG clear and every other bit as it was; a locked CR is unchanged.
   */
  lemma WriteCr(s: FlashRegs, a: Word, d: Word, raised: Word)
    ensures IsSet(s.cr, CrLock) ==> Write(s, a, d, raised).regs.cr == s.cr
    ensures !IsSet(s.cr, CrLock) ==> Write(s, a, d, raised).regs.cr == ClearBits(s.cr, CrPg)
  {
    PgSet(s.cr);
    PgSetThenCleared(s.cr);
  }

  /**
   * Flash_Write programs the addressed word exactly when PG is set at the store
   * and the controller raises no error; otherwise memory keeps its contents.
   */
  lemma WriteMem(s: FlashRegs, a: Word, d: Word, raised: Word)
    ensures Programmable(s.cr) && Accepted(raised) ==> Write(s, a, d, raised).regs.mem == Program(s.mem, a, d)
    ensures !(Programmable(s.cr) && Accepted(raised)) ==> Write(s, a, d, raised).regs.mem == s.mem
  {
    PgSet(s.cr);
  }

  /**
   * When PG is set at the store, Flash_Write reports the first error the
   * controller raised or that was already pending, and its error check clears
   * the flags. The other case is LockedWriteRefused.
   */
  lemma WriteStatus(s: FlashRegs, a: Word, d: Word, raised: Word)
    requires Programmable(s.cr)
    ensures Write(s, a, d, raised).status == Classify(s.sr | raised)
  {
    if IsSet(s.cr, CrLock) {
      LockedPgStoreSr(s, a, d, raised);
    } else {
      UnlockedPgStoreSr(s, a, d, raised);
    }
  }

  lemma WriteSrChecked(s: FlashRegs, a: Word, d: Word, raised: Word)
    requires Programmable(s.cr)
    ensures Write(s, a, d, raised).regs.sr == Checked(s.sr | raised)
  {
    if IsSet(s.cr, CrLock) {
      LockedPgStoreSr(s, a, d, raised);
    } else {
      UnlockedPgStoreSr(s, a, d, raised);
    }
  }

  /**
   * On a locked controller, with PG clear, Flash_Write writes nothing, leaves
   * CR alone and reports a programming sequence error whatever else happens.
   */
  lemma LockedWriteRefused(s: FlashRegs, a: Word, d: Word, raised: Word)
    requires IsSet(s.cr, CrLock) && !IsSet(s.cr, CrPg)
    ensures Write(s, a, d, raised).regs.mem == s.mem
    ensures Write(s, a, d, raised).regs.cr == s.cr
    ensures Write(s, a, d, raised).status == Reported(ProgrammingSequenceError)
  {
    WriteCr(s, a, d, raised);
    WriteMem(s, a, d, raised);
    RefusedPgStoreSr(s, a, d, raised);
  }

  /**
   * A write the controller accepts, on a clean SR, returns no assigned value,
   * so a caller comparing it with Ok_State reads an indeterminate value.
   */
  lemma AcceptedWriteIsUnassigned(s: FlashRegs, a: Word, d: Word)
    requires Programmable(s.cr)
    requires s.sr & SrCheckedErrors == 0
    ensures Write(s, a, d, 0).status == Indeterminate
    ensures ErrorsCheckInit(Write(s, a, d, 0).regs).status == Reported(OkState)
  {
    WriteStatus(s, a, d, 0);
    WriteSrChecked(s, a, d, 0);
  }

  /**
   * Flash_Read: load the word, then run the same error check as a write, so a
   * programming error left in SR by an earlier operation is reported here.
   */
  function Read(s: FlashRegs, a: Word): (r: ReadStep)
    ensures r.data == s.mem(a)
    ensures r.regs.mem == s.mem
    ensures r.status == Classify(s.sr)
    ensures r.regs == s.(sr := Checked(s.sr))
  {
    var step := ErrorsCheck(s);
    ReadStep(step.regs, s.mem(a), step.status)
  }

  /** A word written without error reads back as the AND of the old word and the data, with nothing to report. */
  lemma WriteThenRead(s: FlashRegs, a: Word, d: Word)
    requires Programmable(s.cr)
    requires s.sr & SrCheckedErrors == 0
    ensures Write(s, a, d, 0).status == Indeterminate
    ensures Read(Write(s, a, d, 0).regs, a).data == Programmed(s.mem(a), d)
    ensures Read(Write(s, a, d, 0).regs, a).status == Indeterminate
  {
    WriteMem(s, a, d, 0);
    WriteStatus(s, a, d, 0);
    WriteSrChecked(s, a, d, 0);
  }

  /** A word written without error over an erased word reads back as written. */
  lemma WriteErasedThenRead(s: FlashRegs, a: Word, d: Word)
    requires Programmable(s.cr)
    requires s.sr & SrCheckedErrors == 0
    requires s.mem(a) == Erased
    ensures Read(Write(s, a, d, 0).regs, a).data == d
  {
    WriteThenRead(s, a, d);
    ProgramErased(d);
  }

  /**
   * An error is reported once: the write that raised it reports it and
   * clears it, so a read after it finds nothing; an error left in SR by
   * someone else is reported by the next read.
   */
  lemma ErrorReportedOnce(s: FlashRegs, a: Word, d: Word)
    requires Programmable(s.cr)
    requires s.sr & SrCheckedErrors == 0
    ensures Write(s, a, d, SrPgaerr).status == Reported(ProgrammingAlignmentError)
    ensures Read(Write(s, a, d, SrPgaerr).regs, a).status == Indeterminate
    ensures Read(s.(sr := s.sr | SrWrperr), a).status == Reported(WriteProtectionError)
  {
    WriteStatus(s, a, d, SrPgaerr);
    WriteSrChecked(s, a, d, SrPgaerr);
  }

  /**
   * Flash_Init leaves the controller locked, so a write straight after it is
   * refused; after Flash_Unlock the same write programs the word.
   */
  lemma InitThenWrite(s: FlashRegs, a: Word, d: Word)
    requires !IsSet(s.cr, CrPg)
    ensures Write(Init(s), a, d, 0).regs.mem == s.mem
    ensures Write(Init(s), a, d, 0).status == Reported(ProgrammingSequenceError)
    ensures Write(Unlock(Init(s)), a, d, 0).regs.mem(a) == Programmed(s.mem(a), d)
  {
    InitCr(s);
    InitKeepsPg(s.cr, Init(s).cr);
    LockedWriteRefused(Init(s), a, d, 0);
    WriteMem(Unlock(Init(s)), a, d, 0);
  }

  lemma InitKeepsPg(c: Word, c': Word)
    requires ClearBits(c', CrPsize | CrLock) == ClearBits(c, CrPsize | CrLock)
    ensures IsSet(c', CrPg) == IsSet(c, CrPg)
  {
  }

  /**
   * Flash_Init is idempotent on CR: whatever CR held, running it twice leaves
   * the same LOCK, PSIZE and other bits as running it once.
   */
  lemma InitIdempotent(s: FlashRegs)
    ensures Init(Init(s)).cr == Init(s).cr
    ensures Init(Init(s)) == Init(s).(keyr := Init(s).keyr + [Key1, Key2])
  {
    InitCr(s);
    InitCr(Init(s));
    SameFields(Init(s).cr, Init(Init(s)).cr);
  }

  /** Two CR values with x32 PSIZE, LOCK set and equal remaining bits are equal. */
  lemma SameFields(c: Word, c': Word)
    requires c & CrPsize == CrPsize1 && c' & CrPsize == CrPsize1
    requires IsSet(c, CrLock) && IsSet(c', CrLock)
    requires ClearBits(c', CrPsize | CrLock) == ClearBits(c, CrPsize | CrLock)
    ensures c' == c
  {
  }

  /** The SNB field of a CR value: the sector the next erase acts on. */
  function SnbField(cr: Word): Word {
    (cr & CrSnb) >> CrSnbPos
  }

  /** What Flash_erase ORs into CR for a sector number: the number shifted into SNB and masked to it. */
  function SnbBits(sector: Word): Word {
    CrSnb & (sector << CrSnbPos)
  }

  /**
   * A bit other than LOCK set or cleared in CR leaves LOCK as it was, so the
   * CR writes that follow a first accepted one are accepted too.
   */
  lemma SetKeepsLock(c: Word, m: Word)
    requires m & CrLock == 0
    ensures IsSet(SetBits(c, m), CrLock) == IsSet(c, CrLock)
  {
  }

  lemma ClearKeepsLock(c: Word, m: Word)
    requires m & CrLock == 0
    ensures IsSet(ClearBits(c, m), CrLock) == IsSet(c, CrLock)
  {
  }

  lemma SnbBitsBelowLock(sector: Word)
    ensures SnbBits(sector) & CrLock == 0
  {
  }

  /**
   * Selecting SER and ORing a sector number into SNB: the new SNB is the OR of
   * the old and the new sector numbers, truncated to the 5-bit field.
   */
  lemma SelectSnb(c: Word, sector: Word)
    ensures SnbField(SetBits(SetBits(c, CrSer), SnbBits(sector))) == SnbField(c) | (sector & 0x1F)
  {
  }

  /** Setting STRT leaves SNB alone. */
  lemma StartKeepsSnb(c: Word)
    ensures SnbField(SetBits(c, CrStrt)) == SnbField(c)
  {
  }

  /** The controller clearing STRT and the code clearing SER leave SNB alone. */
  lemma EndKeepsSnb(c: Word)
    ensures SnbField(ClearBits(ClearBits(SetBits(c, CrStrt), CrStrt), CrSer)) == SnbField(c)
  {
  }

  lemma EndClearsSer(c: Word)
    ensures !IsSet(ClearBits(ClearBits(c, CrStrt), CrSer), CrSer)
  {
  }

  lemma EndClearsStrt(c: Word)
    ensures !IsSet(ClearBits(ClearBits(c, CrStrt), CrSer), CrStrt)
  {
  }

  /** The whole Flash_erase CR sequence moves no bit outside SER, SNB and STRT. */
  lemma EraseKeepsOthers(c: Word, sector: Word)
    ensures var c' := ClearBits(ClearBits(SetBits(SetBits(SetBits(c, CrSer), SnbBits(sector)), CrStrt), CrStrt), CrSer);
            ClearBits(c', CrSer | CrSnb | CrStrt) == ClearBits(c, CrSer | CrSnb | CrStrt)
  {
  }

  /** Start address of sectors 0..11 of the first flash bank. */
  function SectorBase(n: nat): int
    requires n < 12
  {
    if n < 4 then 0x0800_0000 + n * 0x4000
    else if n == 4 then 0x0801_0000
    else 0x0802_0000 + (n - 5) * 0x2_0000
  }

  function SectorSize(n: nat): int
    requires n < 12
  {
    if n < 4 then 0x4000 else if n == 4 then 0x1_0000 else 0x2_0000
  }

  /**
   * Whether the word at `a` lies in sector `n`. Only sectors 0..11 of the first
   * bank have an address range here.
   */
  predicate InSector(a: Word, n: Word) {
    n < 12 && SectorBase(n as nat) <= a as int < SectorBase(n as nat) + SectorSize(n as nat)
  }

  /** Memory after erasing sector `n`: every word in it reads as all ones. */
  function EraseSector(m: Mem, n: Word): (m': Mem)
    ensures forall b :: m'(b) == if InSector(b, n) then Erased else m(b)
  {
    b => if InSector(b, n) then Erased else m(b)
  }

  /**
   * The STRT write and the busy wait after it. When the write takes effect the
   * controller erases the sector SNB names at that moment (unless it raises an
   * error) and clears STRT when it is done, which is when BSY clears.
   */
  function StartSectorErase(s: FlashRegs, raised: Word): FlashRegs {
    if IsSet(s.cr, CrLock) then s
    else
      var c := SetBits(s.cr, CrStrt);
      s.(mem := if Accepted(raised) then EraseSector(s.mem, SnbField(c)) else s.mem,
         sr := s.sr | raised,
         cr := ClearBits(c, CrStrt))
  }

  /**
   * Flash_erase: set SER, OR the sector number into SNB, set STRT and wait,
   * clear SER, check errors. Only CR, SR and memory can change.
   */
  function Erase(s: FlashRegs, sector: Word, raised: Word): (r: Step)
    ensures r.regs == s.(cr := r.regs.cr, sr := r.regs.sr, mem := r.regs.mem)
  {
    ErrorsCheck(EraseRegs(s, sector, raised))
  }

  /** The CR writes and the busy wait of Flash_erase, before its error check. */
  function EraseRegs(s: FlashRegs, sector: Word, raised: Word): (t: FlashRegs)
    ensures t == s.(cr := t.cr, sr := t.sr, mem := t.mem)
  {
    var s1 := CrWrite(s, SetBits(s.cr, CrSer));
    var s2 := CrWrite(s1, SetBits(s1.cr, SnbBits(sector)));
    var s3 := StartSectorErase(s2, raised);
    CrWrite(s3, ClearBits(s3.cr, CrSer))
  }

  /**
   * On a locked controller every CR write of Flash_erase is ignored: nothing
   * is erased, and the result is the error check of SR as it stood.
   */
  lemma LockedEraseDoesNothing(s: FlashRegs, sector: Word, raised: Word)
    requires IsSet(s.cr, CrLock)
    ensures Erase(s, sector, raised) == ErrorsCheck(s)
  {
  }

  /** The registers of an unlocked Flash_erase before its error check: CR, memory, SR. */
  lemma EraseRegsCr(s: FlashRegs, sector: Word, raised: Word)
    requires !IsSet(s.cr, CrLock)
    ensures var c := SetBits(SetBits(s.cr, CrSer), SnbBits(sector));
            EraseRegs(s, sector, raised).cr == ClearBits(ClearBits(SetBits(c, CrStrt), CrStrt), CrSer)
  {
    SetKeepsLock(s.cr, CrSer);
    SnbBitsBelowLock(sector);
    SetKeepsLock(SetBits(s.cr, CrSer), SnbBits(sector));
    var c := SetBits(SetBits(s.cr, CrSer), SnbBits(sector));
    ClearKeepsLock(SetBits(c, CrStrt), CrStrt);
    SetKeepsLock(c, CrStrt);
  }

  lemma EraseRegsMem(s: FlashRegs, sector: Word, raised: Word)
    requires !IsSet(s.cr, CrLock)
    ensures var c := SetBits(SetBits(s.cr, CrSer), SnbBits(sector));
            EraseRegs(s, sector, raised).mem
            == if Accepted(raised) then EraseSector(s.mem, SnbField(SetBits(c, CrStrt))) else s.mem
  {
    SetKeepsLock(s.cr, CrSer);
    SnbBitsBelowLock(sector);
    SetKeepsLock(SetBits(s.cr, CrSer), SnbBits(sector));
    var c := SetBits(SetBits(s.cr, CrSer), SnbBits(sector));
    ClearKeepsLock(SetBits(c, CrStrt), CrStrt);
    SetKeepsLock(c, CrStrt);
  }

  lemma EraseRegsSr(s: FlashRegs, sector: Word, raised: Word)
    requires !IsSet(s.cr, CrLock)
    ensures EraseRegs(s, sector, raised).sr == s.sr | raised
  {
    SetKeepsLock(s.cr, CrSer);
    SnbBitsBelowLock(sector);
    SetKeepsLock(SetBits(s.cr, CrSer), SnbBits(sector));
    var c := SetBits(SetBits(s.cr, CrSer), SnbBits(sector));
    ClearKeepsLock(SetBits(c, CrStrt), CrStrt);
    SetKeepsLock(c, CrStrt);
  }

  /**
   * On an unlocked controller Flash_erase leaves SER and STRT clear, SNB holding
   * the OR of its old value and the new sector number, and every other CR bit
   * as it was.
   */
  lemma EraseCr(s: FlashRegs, sector: Word, raised: Word)
    requires !IsSet(s.cr, CrLock)
    ensures var c := Erase(s, sector, raised).regs.cr;
            && SnbField(c) == SnbField(s.cr) | (sector & 0x1F)
            && !IsSet(c, CrSer) && !IsSet(c, CrStrt)
            && ClearBits(c, CrSer | CrSnb | CrStrt) == ClearBits(s.cr, CrSer | CrSnb | CrStrt)
  {
    EraseRegsCr(s, sector, raised);
    var c := SetBits(SetBits(s.cr, CrSer), SnbBits(sector));
    SelectSnb(s.cr, sector);
    EndKeepsSnb(c);
    EndClearsSer(SetBits(c, CrStrt));
    EndClearsStrt(SetBits(c, CrStrt));
    EraseKeepsOthers(s.cr, sector);
  }

  /**
   * On an unlocked controller Flash_erase wipes the sector SNB ends up naming,
   * if the controller raises no error, and reports what it raised or what was
   * already pending.
   */
  lemma EraseMem(s: FlashRegs, sector: Word, raised: Word)
    requires !IsSet(s.cr, CrLock)
    ensures Erase(s, sector, raised).regs.mem
            == if Accepted(raised) then EraseSector(s.mem, SnbField(s.cr) | (sector & 0x1F)) else s.mem
    ensures Erase(s, sector, raised).status == Classify(s.sr | raised)
  {
    EraseRegsMem(s, sector, raised);
    EraseRegsSr(s, sector, raised);
    var c := SetBits(SetBits(s.cr, CrSer), SnbBits(sector));
    SelectSnb(s.cr, sector);
    StartKeepsSnb(c);
  }

  /**
   * Erasing sector 1 and then sector 2 leaves SNB at 1 | 2 = 3: the second
   * erase wipes sector 3 and leaves sector 2 as it was.
   */
  lemma SecondEraseHitsWrongSector(s: FlashRegs)
    requires !IsSet(s.cr, CrLock)
    requires SnbField(s.cr) == 0
    ensures var r := Erase(Erase(s, 1, 0).regs, 2, 0).regs;
            SnbField(r.cr) == 3
            && r.mem(0x0800_C000) == Erased
            && r.mem(0x0800_8000) == s.mem(0x0800_8000)
  {
    var r1 := Erase(s, 1, 0).regs;
    EraseCr(s, 1, 0);
    EraseMem(s, 1, 0);
    LockFromOthers(s.cr, r1.cr);
    EraseCr(r1, 2, 0);
    EraseMem(r1, 2, 0);
  }

  /** Two CR values that agree outside SER, SNB and STRT agree on LOCK. */
  lemma LockFromOthers(c: Word, c': Word)
    requires ClearBits(c', CrSer | CrSnb | CrStrt) == ClearBits(c, CrSer | CrSnb | CrStrt)
    ensures IsSet(c', CrLock) == IsSet(c, CrLock)
  {
  }

  lemma ClearedSnb(cr: Word)
    ensures SnbField(ClearBits(cr, CrSnb)) == 0
  {
  }

  /**
   * Flash_erase with `CR &= ~CR_SNB` before the sector number is written: on an
   * unlocked controller the erase acts on the requested sector whatever SNB
   * held; a locked one ignores the clearing write too.
   */
  function EraseFixed(s: FlashRegs, sector: Word, raised: Word): (r: Step)
    ensures r.regs == s.(cr := r.regs.cr, sr := r.regs.sr, mem := r.regs.mem)
  {
    Erase(CrWrite(s, ClearBits(s.cr, CrSnb)), sector, raised)
  }

  /** The fixed erase wipes the requested sector, and its SNB names only it. */
  lemma EraseFixedHitsRequestedSector(s: FlashRegs, sector: Word, raised: Word)
    requires !IsSet(s.cr, CrLock)
    ensures SnbField(EraseFixed(s, sector, raised).regs.cr) == sector & 0x1F
    ensures EraseFixed(s, sector, raised).regs.mem
            == if Accepted(raised) then EraseSector(s.mem, sector & 0x1F) else s.mem
  {
    ClearedSnb(s.cr);
    ClearKeepsLock(s.cr, CrSnb);
    EraseCr(s.(cr := ClearBits(s.cr, CrSnb)), sector, raised);
    EraseMem(s.(cr := ClearBits(s.cr, CrSnb)), sector, raised);
  }

  /** The fixed erase reports what the controller raised or what was already pending. */
  lemma EraseFixedStatus(s: FlashRegs, sector: Word, raised: Word)
    requires !IsSet(s.cr, CrLock)
    ensures EraseFixed(s, sector, raised).status == Classify(s.sr | raised)
  {
    ClearKeepsLock(s.cr, CrSnb);
    EraseMem(s.(cr := ClearBits(s.cr, CrSnb)), sector, raised);
  }

  /** The fixed erase on a locked controller changes nothing but what the error check clears. */
  lemma LockedEraseFixedDoesNothing(s: FlashRegs, sector: Word, raised: Word)
    requires IsSet(s.cr, CrLock)
    ensures EraseFixed(s, sector, raised) == ErrorsCheck(s)
  {
  }

  /** With SNB cleared first, erasing sector 1 and then sector 2 erases sector 2 and spares sector 3. */
  lemma SecondEraseFixedHitsRequestedSector(s: FlashRegs)
    requires !IsSet(s.cr, CrLock)
    ensures var r := EraseFixed(EraseFixed(s, 1, 0).regs, 2, 0).regs;
            r.mem(0x0800_8000) == Erased
            && r.mem(0x0800_C000) == s.mem(0x0800_C000)
  {
    var r1 := EraseFixed(s, 1, 0).regs;
    EraseFixedHitsRequestedSector(s, 1, 0);
    ClearedSnb(s.cr);
    ClearKeepsLock(s.cr, CrSnb);
    EraseCr(s.(cr := ClearBits(s.cr, CrSnb)), 1, 0);
    LockFromOthers(ClearBits(s.cr, CrSnb), r1.cr);
    EraseFixedHitsRequestedSector(r1, 2, 0);
  }

  /**
   * The OPTCR bit Flash_WRP_Enable and Flash_WRP_Desable touch for a sector:
   * the sector's nWRP bit for sectors 0..11, a bit above the nWRP field for
   * 12..14.
   */
  function WrpMask(sector: Word): (m: Word)
    requires sector < WrpShiftDefined
    ensures m != 0 && m & !0x7FFF_0000 == 0
    ensures sector < WrpSectors ==> m & !0x0FFF_0000 == 0
    ensures m & OptcrOptlock == 0
  {
    ((1 as Word) << sector) << NWrpPos
  }

  /** An OPTCR write: the controller ignores it while OPTCR.OPTLOCK is set. */
  function OptcrWrite(s: FlashRegs, v: Word): (r: FlashRegs)
    ensures IsSet(s.optcr, OptcrOptlock) ==> r == s
    ensures !IsSet(s.optcr, OptcrOptlock) ==> r == s.(optcr := v)
  {
    if IsSet(s.optcr, OptcrOptlock) then s else s.(optcr := v)
  }

  /**
   * The OPTSTRT write and the busy wait after it. When the write takes effect
   * the controller commits the option bytes and clears OPTSTRT when it is
   * done, which is when BSY clears.
   */
  function StartOptionCommit(s: FlashRegs, raised: Word): FlashRegs {
    if IsSet(s.optcr, OptcrOptlock) then s
    else s.(optcr := ClearBits(SetBits(s.optcr, OptcrOptstrt), OptcrOptstrt), sr := s.sr | raised)
  }

  /**
   * Flash_WRP_Enable: clear the sector's nWRP bit (protect it), start the
   * option-byte commit and wait, check errors. Only OPTCR and SR can change.
   */
  function WrpEnable(s: FlashRegs, sector: Word, raised: Word): (r: Step)
    requires sector < WrpShiftDefined
    ensures r.regs == s.(optcr := r.regs.optcr, sr := r.regs.sr)
  {
    ErrorsCheck(StartOptionCommit(OptcrWrite(s, ClearBits(s.optcr, WrpMask(sector))), raised))
  }

  /**
   * Flash_WRP_Desable: set the sector's nWRP bit (unprotect it), start the
   * option-byte commit and wait, check errors. Only OPTCR and SR can change.
   */
  function WrpDisable(s: FlashRegs, sector: Word, raised: Word): (r: Step)
    requires sector < WrpShiftDefined
    ensures r.regs == s.(optcr := r.regs.optcr, sr := r.regs.sr)
  {
    ErrorsCheck(StartOptionCommit(OptcrWrite(s, SetBits(s.optcr, WrpMask(sector))), raised))
  }

  /** With OPTLOCK set both OPTCR writes are ignored: the result is the error check of SR as it stood. */
  lemma LockedWrpDoesNothing(s: FlashRegs, sector: Word, raised: Word)
    requires sector < WrpShiftDefined
    requires IsSet(s.optcr, OptcrOptlock)
    ensures WrpEnable(s, sector, raised) == ErrorsCheck(s)
    ensures WrpDisable(s, sector, raised) == ErrorsCheck(s)
  {
  }

  /** An nWRP bit set or cleared leaves OPTLOCK as it was. */
  lemma MaskKeepsOptlock(o: Word, m: Word)
    requires m & OptcrOptlock == 0
    ensures IsSet(ClearBits(o, m), OptcrOptlock) == IsSet(o, OptcrOptlock)
  {
  }

  lemma MaskSetKeepsOptlock(o: Word, m: Word)
    requires m & OptcrOptlock == 0
    ensures IsSet(SetBits(o, m), OptcrOptlock) == IsSet(o, OptcrOptlock)
  {
  }

  /** A pulse of OPTSTRT leaves it clear and every other bit as it was. */
  lemma Pulse(o: Word)
    ensures ClearBits(SetBits(o, OptcrOptstrt), OptcrOptstrt) == ClearBits(o, OptcrOptstrt)
  {
  }

  /**
   * With OPTLOCK clear, OPTCR after Flash_WRP_Enable and Flash_WRP_Desable: the
   * sector's nWRP bit cleared or set, OPTSTRT clear, every other bit as it was.
   */
  lemma WrpOptcr(s: FlashRegs, sector: Word, raised: Word)
    requires sector < WrpShiftDefined
    requires !IsSet(s.optcr, OptcrOptlock)
    ensures WrpEnable(s, sector, raised).regs.optcr == ClearBits(ClearBits(s.optcr, WrpMask(sector)), OptcrOptstrt)
    ensures WrpDisable(s, sector, raised).regs.optcr == ClearBits(SetBits(s.optcr, WrpMask(sector)), OptcrOptstrt)
  {
    var m := WrpMask(sector);
    MaskKeepsOptlock(s.optcr, m);
    MaskSetKeepsOptlock(s.optcr, m);
    Pulse(ClearBits(s.optcr, m));
    Pulse(SetBits(s.optcr, m));
  }

  /** With OPTLOCK clear, both report what the controller raised or what was already pending. */
  lemma WrpEnableStatus(s: FlashRegs, sector: Word, raised: Word)
    requires sector < WrpShiftDefined
    requires !IsSet(s.optcr, OptcrOptlock)
    ensures WrpEnable(s, sector, raised).status == Classify(s.sr | raised)
  {
    MaskKeepsOptlock(s.optcr, WrpMask(sector));
  }

  lemma WrpDisableStatus(s: FlashRegs, sector: Word, raised: Word)
    requires sector < WrpShiftDefined
    requires !IsSet(s.optcr, OptcrOptlock)
    ensures WrpDisable(s, sector, raised).status == Classify(s.sr | raised)
  {
    MaskSetKeepsOptlock(s.optcr, WrpMask(sector));
  }

  lemma ClearThenPulse(o: Word, m: Word)
    ensures ClearBits(ClearBits(o, m), OptcrOptstrt) & m == 0
  {
  }

  lemma SetThenPulse(o: Word, m: Word)
    requires m & !0x7FFF_0000 == 0
    ensures IsSet(ClearBits(SetBits(o, m), OptcrOptstrt), m)
  {
  }

  lemma PulseEnds(o: Word)
    ensures !IsSet(ClearBits(o, OptcrOptstrt), OptcrOptstrt)
  {
  }

  /**
   * With OPTLOCK clear, Flash_WRP_Enable protects the sector: its nWRP bit
   * reads clear, and OPTSTRT reads clear once the commit is done.
   */
  lemma WrpEnableProtects(s: FlashRegs, sector: Word, raised: Word)
    requires sector < WrpShiftDefined
    requires !IsSet(s.optcr, OptcrOptlock)
    ensures var o := WrpEnable(s, sector, raised).regs.optcr;
            && o & WrpMask(sector) == 0
            && !IsSet(o, OptcrOptstrt)
  {
    var m := WrpMask(sector);
    WrpOptcr(s, sector, raised);
    ClearThenPulse(s.optcr, m);
    PulseEnds(ClearBits(s.optcr, m));
  }

  /**
   * With OPTLOCK clear, Flash_WRP_Desable unprotects the sector: its nWRP bit
   * reads set, and OPTSTRT reads clear once the commit is done.
   */
  lemma WrpDisableUnprotects(s: FlashRegs, sector: Word, raised: Word)
    requires sector < WrpShiftDefined
    requires !IsSet(s.optcr, OptcrOptlock)
    ensures var o := WrpDisable(s, sector, raised).regs.optcr;
            && IsSet(o, WrpMask(sector))
            && !IsSet(o, OptcrOptstrt)
  {
    var m := WrpMask(sector);
    WrpOptcr(s, sector, raised);
    SetThenPulse(s.optcr, m);
    PulseEnds(SetBits(s.optcr, m));
  }

  /** Clearing bits that were set and setting them again, with OPTSTRT pulsed each time, restores the word. */
  lemma MaskRestored(o: Word, m: Word)
    requires IsSet(o, m)
    ensures ClearBits(SetBits(ClearBits(ClearBits(o, m), OptcrOptstrt), m), OptcrOptstrt) == ClearBits(o, OptcrOptstrt)
  {
  }

  /**
   * Protecting and then unprotecting a sector leaves OPTCR as it was, apart
   * from OPTSTRT reading clear, provided the sector was unprotected to begin
   * with; with OPTLOCK set neither call changes OPTCR.
   */
  lemma WrpRoundTrip(s: FlashRegs, sector: Word, raised1: Word, raised2: Word)
    requires sector < WrpShiftDefined
    requires IsSet(s.optcr, WrpMask(sector))
    ensures IsSet(s.optcr, OptcrOptlock) ==>
              WrpDisable(WrpEnable(s, sector, raised1).regs, sector, raised2).regs.optcr == s.optcr
    ensures !IsSet(s.optcr, OptcrOptlock) ==>
              WrpDisable(WrpEnable(s, sector, raised1).regs, sector, raised2).regs.optcr
              == ClearBits(s.optcr, OptcrOptstrt)
  {
    var r1 := WrpEnable(s, sector, raised1).regs;
    if IsSet(s.optcr, OptcrOptlock) {
      LockedWrpDoesNothing(s, sector, raised1);
      LockedWrpDoesNothing(r1, sector, raised2);
    } else {
      var m := WrpMask(sector);
      WrpOptcr(s, sector, raised1);
      MaskKeepsOptlock(s.optcr, m);
      OptstrtClearKeepsOptlock(ClearBits(s.optcr, m));
      WrpOptcr(r1, sector, raised2);
      MaskRestored(s.optcr, m);
    }
  }

  lemma OptstrtClearKeepsOptlock(o: Word)
    ensures IsSet(ClearBits(o, OptcrOptstrt), OptcrOptlock) == IsSet(o, OptcrOptlock)
  {
  }

  /** OPTKEY1 then OPTKEY2: the log records both and OPTLOCK is cleared. */
  function OptKeySequence(s: FlashRegs): (r: FlashRegs)
    ensures r == s.(optkeyr := s.optkeyr + [OptKey1, OptKey2], optcr := ClearBits(s.optcr, OptcrOptlock))
  {
    var s1 := OptkeyrWrite(s, OptKey1);
    assert s1.optkeyr[|s1.optkeyr| - 1] == OptKey1;
    OptkeyrWrite(s1, OptKey2)
  }

  /** Flash_OB_Unlock: OPTKEY1 then OPTKEY2, which clears OPTLOCK; check errors. */
  function ObUnlock(s: FlashRegs): (r: Step)
    ensures r.regs.optkeyr == s.optkeyr + [OptKey1, OptKey2]
    ensures !IsSet(r.regs.optcr, OptcrOptlock)
    ensures SetBits(r.regs.optcr, OptcrOptlock) == SetBits(s.optcr, OptcrOptlock)
    ensures r.status == Classify(s.sr)
    ensures r.regs == s.(optcr := r.regs.optcr, optkeyr := r.regs.optkeyr, sr := r.regs.sr)
  {
    ClearOptlock(s.optcr);
    ErrorsCheck(OptKeySequence(s))
  }

  /** Flash_OB_Lock: set OPTLOCK; check errors. */
  function ObLock(s: FlashRegs): (r: Step)
    ensures IsSet(r.regs.optcr, OptcrOptlock)
    ensures ClearBits(r.regs.optcr, OptcrOptlock) == ClearBits(s.optcr, OptcrOptlock)
    ensures r.status == Classify(s.sr)
    ensures r.regs == s.(optcr := r.regs.optcr, sr := r.regs.sr)
  {
    SetOptlock(s.optcr);
    ErrorsCheck(s.(optcr := SetBits(s.optcr, OptcrOptlock)))
  }

  lemma SetOptlock(o: Word)
    ensures IsSet(SetBits(o, OptcrOptlock), OptcrOptlock)
    ensures ClearBits(SetBits(o, OptcrOptlock), OptcrOptlock) == ClearBits(o, OptcrOptlock)
  {
  }

  lemma ClearOptlock(o: Word)
    ensures !IsSet(ClearBits(o, OptcrOptlock), OptcrOptlock)
    ensures SetBits(ClearBits(o, OptcrOptlock), OptcrOptlock) == SetBits(o, OptcrOptlock)
  {
  }

  /**
   * Unlocking and relocking the option bytes leaves OPTCR as it was apart from
   * OPTLOCK, and the converse.
   */
  lemma ObLockUnlockRoundTrip(s: FlashRegs)
    ensures ObLock(ObUnlock(s).regs).regs.optcr == SetBits(s.optcr, OptcrOptlock)
    ensures ObUnlock(ObLock(s).regs).regs.optcr == ClearBits(s.optcr, OptcrOptlock)
  {
  }

  /**
   * Flash_WRP_Enable has an effect only between Flash_OB_Unlock and
   * Flash_OB_Lock: on locked option bytes it leaves OPTCR alone, and after
   * unlocking it protects the sector.
   */
  lemma WrpNeedsObUnlock(s: FlashRegs, sector: Word)
    requires sector < WrpShiftDefined
    requires IsSet(s.optcr, OptcrOptlock)
    ensures WrpEnable(s, sector, 0).regs.optcr == s.optcr
    ensures WrpEnable(ObUnlock(s).regs, sector, 0).regs.optcr & WrpMask(sector) == 0
  {
    LockedWrpDoesNothing(s, sector, 0);
    WrpEnableProtects(ObUnlock(s).regs, sector, 0);
  }
}
