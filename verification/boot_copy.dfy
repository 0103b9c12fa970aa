/**
 * The image copy of Core/Src/boot_cntrl.c (BOOT_CPY_IMAGE): word by word from
 * a source to a destination address, with a bounded number of attempts per
 * word, driven by an oracle for the HAL's answers.
 */
module BootCopy {
  import opened Machine
  import opened WordArith

  /** What a HAL flash call reports: HAL_OK, or failure with the code HAL_FLASH_GetError then returns. */
  datatype HalResult = HalOk | HalError(code: Word)

  /** A returned `uint32_t`: a value the function assigned, or its uninitialised local. */
  datatype Returned = Code(value: Word) | Unassigned

  /**
   * One HAL_FLASH_Program call: the byte offset `idx` of the word, the address
   * and data passed, and the answer.
   */
  datatype Attempt = Attempt(offset: nat, address: Word, data: Word, result: HalResult)

  /** How BOOT_CPY_IMAGE left its loop. */
  datatype CopyExit =
    | UnlockFailed      // HAL_FLASH_Unlock failed; nothing was attempted
    | RetriesExhausted  // a word failed three times in a row
    | Finished          // idx reached size
    | IndexWrapped      // idx overflowed to 0 and the loop would start over

  /** Attempts per word before the copy gives up. */
  const MaxAttempts: nat := 3


  /** One more than the largest value of the `uint32_t` counter `idx`. */
  const CounterRange: nat := 0x1_0000_0000

  /** Number of words the copy covers: `idx` runs over 0, 4, ... while `idx < size`. */
  function WordCount(size: nat): nat {
    (size + 3) / 4
  }

  /** Memory after the successful attempts of a log, in order. */
  function Replay(m: Mem, log: seq<Attempt>): Mem {
    if log == [] then m
    else
      var prev := Replay(m, log[..|log| - 1]);
      var a := log[|log| - 1];
      if a.result == HalOk then Program(prev, a.address, a.data) else prev
  }

  /** Number of successful attempts in a log. */
  function Successes(log: seq<Attempt>): nat {
    if log == [] then 0
    else Successes(log[..|log| - 1]) + (if log[|log| - 1].result == HalOk then 1 else 0)
  }

  /** The code of the latest failed attempt: what `operation_state_error` holds. */
  function LastError(log: seq<Attempt>): Returned {
    if log == [] then Unassigned
    else if log[|log| - 1].result.HalError? then Code(log[|log| - 1].result.code)
    else LastError(log[..|log| - 1])
  }

  /** Number of failed attempts at the end of a log: the retries so far at the current word. */
  function TrailingFailures(log: seq<Attempt>): nat {
    if log == [] || log[|log| - 1].result == HalOk then 0
    else TrailingFailures(log[..|log| - 1]) + 1
  }

  /** The i-th attempt got the i-th answer of the oracle. */
  predicate Answered(log: seq<Attempt>, program: nat -> HalResult) {
    log == [] ||
    (Answered(log[..|log| - 1], program) && log[|log| - 1].result == program(|log| - 1))
  }

  /**
   * Each attempt is at the offset of the word numbered by the successes
   * before it: a failure is retried at the same offset, a success moves on by
   * 4 bytes. And no attempt comes after MaxAttempts failures in a row, so a
   * word gets at most MaxAttempts attempts.
   */
  predicate Sequenced(log: seq<Attempt>) {
    log == [] ||
    (Sequenced(log[..|log| - 1])
     && log[|log| - 1].offset == 4 * Successes(log[..|log| - 1])
     && TrailingFailures(log[..|log| - 1]) < MaxAttempts)
  }

  /**
   * Every attempt goes to `dest` plus its offset, and writes the source word
   * at the same offset as memory held it when that attempt was made, below
   * `size`.
   */
  predicate Addressed(log: seq<Attempt>, src: Word, dest: Word, size: nat, m0: Mem) {
    log == [] ||
    (Addressed(log[..|log| - 1], src, dest, size, m0)
     && log[|log| - 1].offset < size
     && log[|log| - 1].address == At(dest, log[|log| - 1].offset)
     && log[|log| - 1].data == Replay(m0, log[..|log| - 1])(At(src, log[|log| - 1].offset)))
  }

  /** What the loop needs about appending one attempt. */
  lemma Append(log: seq<Attempt>, a: Attempt, m: Mem, src: Word, dest: Word, size: nat, program: nat -> HalResult)
    ensures Replay(m, log + [a]) == if a.result == HalOk then Program(Replay(m, log), a.address, a.data) else Replay(m, log)
    ensures Successes(log + [a]) == Successes(log) + (if a.result == HalOk then 1 else 0)
    ensures LastError(log + [a]) == if a.result.HalError? then Code(a.result.code) else LastError(log)
    ensures TrailingFailures(log + [a]) == if a.result == HalOk then 0 else TrailingFailures(log) + 1
    ensures Answered(log + [a], program) <==> Answered(log, program) && a.result == program(|log|)
    ensures Sequenced(log + [a]) <==>
              Sequenced(log) && a.offset == 4 * Successes(log) && TrailingFailures(log) < MaxAttempts
    ensures Addressed(log + [a], src, dest, size, m) <==>
              Addressed(log, src, dest, size, m) && a.offset < size && a.address == At(dest, a.offset)
              && a.data == Replay(m, log)(At(src, a.offset))
  {
    assert (log + [a])[..|log|] == log;
  }

  /** The three facts the copy keeps about its log. */
  predicate Progress(log: seq<Attempt>, m0: Mem, src: Word, dest: Word, size: nat, program: nat -> HalResult) {
    Answered(log, program) && Sequenced(log) && Addressed(log, src, dest, size, m0)
  }

  /**
   * What holds at the top of every iteration of the copy loop: `idx` is the
   * offset of the word after the copied ones, `resend` counts the failures at
   * it, `data` holds that word once it has been read, memory holds what the
   * successful calls stored, and `result` the code of the latest failure.
   */
  ghost predicate LoopState(idx: nat, resend: nat, data: Word, log: seq<Attempt>, mem: Mem, result: Returned,
                      m0: Mem, src: Word, dest: Word, size: nat, program: nat -> HalResult)
  {
    && idx == 4 * Successes(log) && idx < CounterRange && idx <= size + 3
    && resend == TrailingFailures(log) && resend <= MaxAttempts
    && Progress(log, m0, src, dest, size, program)
    && mem == Replay(m0, log) && result == LastError(log)
    && (resend > 0 ==> data == mem(At(src, idx)))
  }

  /** A failed call: the same word is tried again, with the same data, and its code is kept. */
  lemma FailureStep(idx: nat, resend: nat, data: Word, log: seq<Attempt>, mem: Mem, result: Returned,
                    m0: Mem, src: Word, dest: Word, size: nat, program: nat -> HalResult)
    requires LoopState(idx, resend, data, log, mem, result, m0, src, dest, size, program)
    requires idx < size && resend < MaxAttempts && data == mem(At(src, idx))
    requires program(|log|).HalError?
    ensures var a := Attempt(idx, At(dest, idx), data, program(|log|));
            LoopState(idx, resend + 1, data, log + [a], mem, Code(a.result.code), m0, src, dest, size, program)
  {
    var a := Attempt(idx, At(dest, idx), data, program(|log|));
    Append(log, a, m0, src, dest, size, program);
  }

  /** A successful call: the word is stored and the loop moves on by 4 bytes. */
  lemma SuccessStep(idx: nat, resend: nat, data: Word, log: seq<Attempt>, mem: Mem, result: Returned,
                    m0: Mem, src: Word, dest: Word, size: nat, program: nat -> HalResult)
    requires LoopState(idx, resend, data, log, mem, result, m0, src, dest, size, program)
    requires idx < size && resend < MaxAttempts && data == mem(At(src, idx))
    requires program(|log|) == HalOk
    ensures var a := Attempt(idx, At(dest, idx), data, HalOk);
            && Progress(log + [a], m0, src, dest, size, program)
            && Program(mem, At(dest, idx), data) == Replay(m0, log + [a])
            && Successes(log + [a]) == Successes(log) + 1 && TrailingFailures(log + [a]) == 0
            && LastError(log + [a]) == result
            && (idx + 4 < CounterRange ==>
                  LoopState(idx + 4, 0, data, log + [a], Program(mem, At(dest, idx), data), result,
                            m0, src, dest, size, program))
  {
    var a := Attempt(idx, At(dest, idx), data, HalOk);
    Append(log, a, m0, src, dest, size, program);
  }

  /** The loop stops once `4 * words >= size`, and the last word started below `size`. */
  lemma CeilingWords(size: nat, words: nat)
    requires size <= 4 * words <= size + 3
    ensures words == (size + 3) / 4
  {
  }

  /** What the copy loop guarantees when it stops, for each way of stopping. */
  ghost predicate Outcome(exit: CopyExit, log: seq<Attempt>, mem: Mem, result: Returned,
                          m0: Mem, src: Word, dest: Word, size: nat, program: nat -> HalResult)
  {
    && exit != UnlockFailed
    && Progress(log, m0, src, dest, size, program)
    && mem == Replay(m0, log) && result == LastError(log)
    && (exit == RetriesExhausted ==> TrailingFailures(log) == MaxAttempts)
    && (exit == Finished ==> Successes(log) == WordCount(size) && TrailingFailures(log) == 0 && size < CounterRange)
    && (exit == IndexWrapped ==> size > CounterRange - 4 && Successes(log) == CounterRange / 4)
  }

  lemma FinishedOutcome(idx: nat, resend: nat, data: Word, log: seq<Attempt>, mem: Mem, result: Returned,
                        m0: Mem, src: Word, dest: Word, size: nat, program: nat -> HalResult)
    requires LoopState(idx, resend, data, log, mem, result, m0, src, dest, size, program)
    requires idx >= size
    ensures Outcome(Finished, log, mem, result, m0, src, dest, size, program)
  {
    CeilingWords(size, Successes(log));
    assert TrailingFailures(log) == 0 by {
      if TrailingFailures(log) > 0 {
        TrailingAttemptOffset(log, m0, src, dest, size, program);
      }
    }
  }

  /** After a failure the loop is still at the word of that failure, which started below `size`. */
  lemma TrailingAttemptOffset(log: seq<Attempt>, m0: Mem, src: Word, dest: Word, size: nat, program: nat -> HalResult)
    requires Progress(log, m0, src, dest, size, program) && TrailingFailures(log) > 0
    ensures 4 * Successes(log) < size
  {
    assert log != [] && log[|log| - 1].result != HalOk;
    assert Successes(log) == Successes(log[..|log| - 1]);
  }

  lemma ExhaustedOutcome(idx: nat, resend: nat, data: Word, log: seq<Attempt>, mem: Mem, result: Returned,
                         m0: Mem, src: Word, dest: Word, size: nat, program: nat -> HalResult)
    requires LoopState(idx, resend, data, log, mem, result, m0, src, dest, size, program)
    requires resend >= MaxAttempts
    ensures Outcome(RetriesExhausted, log, mem, result, m0, src, dest, size, program)
  {
  }

  lemma WrappedOutcome(idx: nat, resend: nat, data: Word, log: seq<Attempt>, mem: Mem, result: Returned,
                       m0: Mem, src: Word, dest: Word, size: nat, program: nat -> HalResult)
    requires LoopState(idx, resend, data, log, mem, result, m0, src, dest, size, program)
    requires idx < size && resend < MaxAttempts && data == mem(At(src, idx))
    requires program(|log|) == HalOk && idx + 4 >= CounterRange
    ensures var a := Attempt(idx, At(dest, idx), data, HalOk);
            Outcome(IndexWrapped, log + [a], Program(mem, At(dest, idx), data), result, m0, src, dest, size, program)
  {
    var a := Attempt(idx, At(dest, idx), data, HalOk);
    Append(log, a, m0, src, dest, size, program);
  }

  /** The variables of the copy loop at the top of an iteration. */
  datatype Loop = Loop(idx: nat, resend: nat, data: Word, log: seq<Attempt>, mem: Mem, result: Returned)

  /** The loop variables before the first iteration: `idx` and `resend` are 0, nothing is logged. */
  function Start(m0: Mem): Loop {
    Loop(0, 0, 0, [], m0, Unassigned)
  }

  /** What BOOT_CPY_IMAGE leaves behind: its return value, its calls, the memory, and how it stopped. */
  datatype Copied = Copied(result: Returned, log: seq<Attempt>, mem: Mem, exit: CopyExit)

  /**
   * The copy loop from the variables `s` on, one iteration per unfolding: the
   * source word is read on the first attempt at it, a word with MaxAttempts
   * failures ends the loop, a failure is retried with the same data, and a
   * success stores the word and moves on by 4 bytes.
   */
  function Run(s: Loop, src: Word, dest: Word, size: nat, program: nat -> HalResult): Copied
    requires s.idx < CounterRange && s.resend <= MaxAttempts
    decreases CounterRange - s.idx, MaxAttempts - s.resend
  {
    if s.idx >= size then Copied(s.result, s.log, s.mem, Finished)
    else
      var data := if s.resend == 0 then s.mem(At(src, s.idx)) else s.data;
      if s.resend >= MaxAttempts then Copied(s.result, s.log, s.mem, RetriesExhausted)
      else
        var a := Attempt(s.idx, At(dest, s.idx), data, program(|s.log|));
        if a.result.HalError? then
          Run(Loop(s.idx, s.resend + 1, data, s.log + [a], s.mem, Code(a.result.code)), src, dest, size, program)
        else if s.idx + 4 >= CounterRange then
          // idx += 4 overflows the uint32_t counter to 0 here, and the C loop would start over.
          Copied(s.result, s.log + [a], Program(s.mem, a.address, data), IndexWrapped)
        else
          Run(Loop(s.idx + 4, 0, data, s.log + [a], Program(s.mem, a.address, data), s.result), src, dest, size, program)
  }

  /** From any state the loop keeps, the loop ends in one of the outcomes above. */
  lemma {:induction false} RunOutcome(s: Loop, m0: Mem, src: Word, dest: Word, size: nat, program: nat -> HalResult)
    requires LoopState(s.idx, s.resend, s.data, s.log, s.mem, s.result, m0, src, dest, size, program)
    ensures var c := Run(s, src, dest, size, program);
            Outcome(c.exit, c.log, c.mem, c.result, m0, src, dest, size, program)
    decreases CounterRange - s.idx, MaxAttempts - s.resend, 1
  {
    if s.idx >= size {
      FinishedOutcome(s.idx, s.resend, s.data, s.log, s.mem, s.result, m0, src, dest, size, program);
    } else if s.resend >= MaxAttempts {
      ExhaustedOutcome(s.idx, s.resend, s.data, s.log, s.mem, s.result, m0, src, dest, size, program);
    } else {
      AttemptOutcome(s, m0, src, dest, size, program);
    }
  }

  /** The outcome from a state where the loop makes one more HAL_FLASH_Program call. */
  lemma {:induction false} AttemptOutcome(s: Loop, m0: Mem, src: Word, dest: Word, size: nat, program: nat -> HalResult)
    requires LoopState(s.idx, s.resend, s.data, s.log, s.mem, s.result, m0, src, dest, size, program)
    requires s.idx < size && s.resend < MaxAttempts
    ensures var c := Run(s, src, dest, size, program);
            Outcome(c.exit, c.log, c.mem, c.result, m0, src, dest, size, program)
    decreases CounterRange - s.idx, MaxAttempts - s.resend, 0
  {
    var data := if s.resend == 0 then s.mem(At(src, s.idx)) else s.data;
    if program(|s.log|).HalError? {
      RetryOutcome(s, data, m0, src, dest, size, program);
    } else if s.idx + 4 >= CounterRange {
      WrappedOutcome(s.idx, s.resend, data, s.log, s.mem, s.result, m0, src, dest, size, program);
    } else {
      AdvanceOutcome(s, data, m0, src, dest, size, program);
    }
  }

  /** A failed call: the outcome is that of the loop retrying the same word. */
  lemma {:induction false} RetryOutcome(s: Loop, data: Word, m0: Mem, src: Word, dest: Word, size: nat, program: nat -> HalResult)
    requires LoopState(s.idx, s.resend, s.data, s.log, s.mem, s.result, m0, src, dest, size, program)
    requires s.idx < size && s.resend < MaxAttempts && program(|s.log|).HalError?
    requires data == if s.resend == 0 then s.mem(At(src, s.idx)) else s.data
    ensures var c := Run(s, src, dest, size, program);
            Outcome(c.exit, c.log, c.mem, c.result, m0, src, dest, size, program)
    decreases CounterRange - s.idx, MaxAttempts - s.resend, -1
  {
    var a := Attempt(s.idx, At(dest, s.idx), data, program(|s.log|));
    var next := Loop(s.idx, s.resend + 1, data, s.log + [a], s.mem, Code(a.result.code));
    RetryRun(s, data, src, dest, size, program);
    FailureStep(s.idx, s.resend, data, s.log, s.mem, s.result, m0, src, dest, size, program);
    RunOutcome(next, m0, src, dest, size, program);
  }

  /** A successful call below the wrap: the outcome is that of the loop at the next word. */
  lemma {:induction false} AdvanceOutcome(s: Loop, data: Word, m0: Mem, src: Word, dest: Word, size: nat, program: nat -> HalResult)
    requires LoopState(s.idx, s.resend, s.data, s.log, s.mem, s.result, m0, src, dest, size, program)
    requires s.idx < size && s.resend < MaxAttempts && program(|s.log|) == HalOk && s.idx + 4 < CounterRange
    requires data == if s.resend == 0 then s.mem(At(src, s.idx)) else s.data
    ensures var c := Run(s, src, dest, size, program);
            Outcome(c.exit, c.log, c.mem, c.result, m0, src, dest, size, program)
    decreases CounterRange - s.idx, MaxAttempts - s.resend, -1
  {
    var a := Attempt(s.idx, At(dest, s.idx), data, HalOk);
    var next := Loop(s.idx + 4, 0, data, s.log + [a], Program(s.mem, a.address, data), s.result);
    AdvanceRun(s, data, src, dest, size, program);
    SuccessStep(s.idx, s.resend, data, s.log, s.mem, s.result, m0, src, dest, size, program);
    RunOutcome(next, m0, src, dest, size, program);
  }

  /** After a failed call the loop goes on from the same word with one more failure. */
  lemma RetryRun(s: Loop, data: Word, src: Word, dest: Word, size: nat, program: nat -> HalResult)
    requires s.idx < size && s.idx < CounterRange && s.resend < MaxAttempts && program(|s.log|).HalError?
    requires data == if s.resend == 0 then s.mem(At(src, s.idx)) else s.data
    ensures var a := Attempt(s.idx, At(dest, s.idx), data, program(|s.log|));
            Run(s, src, dest, size, program)
            == Run(Loop(s.idx, s.resend + 1, data, s.log + [a], s.mem, Code(a.result.code)), src, dest, size, program)
  {
  }

  /** After a successful call below the wrap the loop goes on from the next word. */
  lemma AdvanceRun(s: Loop, data: Word, src: Word, dest: Word, size: nat, program: nat -> HalResult)
    requires s.idx < size && s.resend < MaxAttempts && program(|s.log|) == HalOk && s.idx + 4 < CounterRange
    requires data == if s.resend == 0 then s.mem(At(src, s.idx)) else s.data
    ensures var a := Attempt(s.idx, At(dest, s.idx), data, HalOk);
            Run(s, src, dest, size, program)
            == Run(Loop(s.idx + 4, 0, data, s.log + [a], Program(s.mem, a.address, data), s.result), src, dest, size, program)
  {
  }

  /** The loop started as BOOT_CPY_IMAGE starts it ends in one of the outcomes. */
  lemma CopyOutcome(m0: Mem, src: Word, dest: Word, size: nat, program: nat -> HalResult)
    ensures var c := Run(Start(m0), src, dest, size, program);
            Outcome(c.exit, c.log, c.mem, c.result, m0, src, dest, size, program)
  {
    RunOutcome(Start(m0), m0, src, dest, size, program);
  }

  /**
   * BOOT_CPY_IMAGE. `unlock` is what HAL_FLASH_Unlock reports and `program(i)`
   * what the i-th HAL_FLASH_Program call reports; a successful call stores the
   * word. The source word is read only on the first attempt at a word, at most
   * three attempts are made per word, and the function returns the error of
   * the latest failure, or nothing assigned if there was none.
   */
  method CopyImage(m0: Mem, src: Word, dest: Word, size: Uint32, unlock: HalResult, program: nat -> HalResult)
    returns (result: Returned, log: seq<Attempt>, mem: Mem, exit: CopyExit)
    ensures exit == UnlockFailed <==> unlock.HalError?
    ensures exit == UnlockFailed ==> log == [] && mem == m0 && result == Code(unlock.code)
    ensures exit != UnlockFailed ==> Outcome(exit, log, mem, result, m0, src, dest, size as nat, program)
    ensures exit != UnlockFailed ==> Copied(result, log, mem, exit) == Run(Start(m0), src, dest, size as nat, program)
    ensures exit == Finished && Disjoint(src, dest, size as nat) ==>
              forall k :: 0 <= k < WordCount(size as nat) ==>
                mem(At(dest, 4 * k)) == Programmed(m0(At(dest, 4 * k)), m0(At(src, 4 * k)))
  {
    if unlock.HalError? {
      result, log, mem, exit := Code(unlock.code), [], m0, UnlockFailed;
    } else {
      result, log, mem, exit := CopyWords(m0, src, dest, size as nat, program);
      if exit == Finished && Disjoint(src, dest, size as nat) {
        CopiesEveryWord(log, mem, result, m0, src, dest, size as nat, program);
      }
    }
  }

  /**
   * The loop of BOOT_CPY_IMAGE, after the flash has been unlocked: it stops in
   * one of the outcomes above, and computes what the functional reference `Run`
   * computes.
   */
  method CopyWords(m0: Mem, src: Word, dest: Word, limit: nat, program: nat -> HalResult)
    returns (result: Returned, log: seq<Attempt>, mem: Mem, exit: CopyExit)
    ensures Outcome(exit, log, mem, result, m0, src, dest, limit, program)
    ensures Copied(result, log, mem, exit) == Run(Start(m0), src, dest, limit, program)
  {
    result, log, mem, exit := CopyLoop(m0, src, dest, limit, program);
    CopyOutcome(m0, src, dest, limit, program);
  }

  /** The loop itself, one iteration per unfolding of `Run`. */
  method CopyLoop(m0: Mem, src: Word, dest: Word, limit: nat, program: nat -> HalResult)
    returns (result: Returned, log: seq<Attempt>, mem: Mem, exit: CopyExit)
    ensures Copied(result, log, mem, exit) == Run(Start(m0), src, dest, limit, program)
  {
    mem := m0;
    log := [];
    var idx: nat := 0;
    var resend: nat := 0;
    var data: Word := 0;
    result := Unassigned;
    while idx < limit
      invariant idx < CounterRange && resend <= MaxAttempts
      invariant Run(Loop(idx, resend, data, log, mem, result), src, dest, limit, program)
             == Run(Start(m0), src, dest, limit, program)
      decreases CounterRange - idx, MaxAttempts - resend
    {
      if resend == 0 {
        data := mem(At(src, idx));
      }
      if resend >= MaxAttempts {
        return result, log, mem, RetriesExhausted;
      }
      var a := Attempt(idx, At(dest, idx), data, program(|log|));
      if a.result.HalError? {
        resend := resend + 1;
        result := Code(a.result.code);
        log := log + [a];
      } else if idx + 4 >= CounterRange {
        return result, log + [a], Program(mem, a.address, data), IndexWrapped;
      } else {
        mem := Program(mem, a.address, data);
        resend := 0;
        log := log + [a];
        idx := idx + 4;
      }
    }
    exit := Finished;
  }

  /** Progress holds of every prefix of a log. */
  lemma {:induction false} ProgressPrefix(log: seq<Attempt>, k: nat, m0: Mem, src: Word, dest: Word, size: nat,
                                          program: nat -> HalResult)
    requires Progress(log, m0, src, dest, size, program) && k <= |log|
    ensures Progress(log[..k], m0, src, dest, size, program)
    decreases |log|
  {
    if k < |log| {
      var p := log[..|log| - 1];
      assert p + [log[|log| - 1]] == log;
      Append(p, log[|log| - 1], m0, src, dest, size, program);
      ProgressPrefix(p, k, m0, src, dest, size, program);
      assert p[..k] == log[..k];
    } else {
      assert log[..k] == log;
    }
  }

  /**
   * A failed call is followed, if at all, by a call for the same word: same
   * offset, same destination address, and the same data, since nothing was
   * stored in between.
   */
  lemma RetrySameWord(log: seq<Attempt>, i: nat, m0: Mem, src: Word, dest: Word, size: nat, program: nat -> HalResult)
    requires Progress(log, m0, src, dest, size, program)
    requires i + 1 < |log| && log[i].result != HalOk
    ensures log[i + 1].offset == log[i].offset
    ensures log[i + 1].address == log[i].address
    ensures log[i + 1].data == log[i].data
  {
    ProgressPrefix(log, i + 2, m0, src, dest, size, program);
    assert log[..i + 1] + [log[i + 1]] == log[..i + 2];
    assert log[..i] + [log[i]] == log[..i + 1];
    Append(log[..i + 1], log[i + 1], m0, src, dest, size, program);
    Append(log[..i], log[i], m0, src, dest, size, program);
  }

  /** A word of memory no successful call wrote keeps its first value. */
  lemma {:induction false} ReplayUntouched(m0: Mem, log: seq<Attempt>, x: Word)
    requires forall i :: 0 <= i < |log| && log[i].result == HalOk ==> log[i].address != x
    ensures Replay(m0, log)(x) == m0(x)
    decreases |log|
  {
    if log != [] {
      ReplayUntouched(m0, log[..|log| - 1], x);
    }
  }

  /**
   * The bytes the copy reads and the bytes it programs do not overlap. The
   * loop moves whole words, so each range spans `4 * WordCount(size)` bytes,
   * rounding `size` up to a whole word.
   */
  ghost predicate Disjoint(src: Word, dest: Word, size: nat) {
    forall o, p :: 0 <= o < 4 * WordCount(size) && 0 <= p < 4 * WordCount(size) ==> At(dest, o) != At(src, p)
  }

  /**
   * When the source and destination ranges do not overlap, every call
   * programs the source word as it was before the copy began.
   */
  lemma {:induction false} ReadsSource(log: seq<Attempt>, m0: Mem, src: Word, dest: Word, size: nat,
                                       program: nat -> HalResult)
    requires Progress(log, m0, src, dest, size, program) && Disjoint(src, dest, size)
    ensures forall i :: 0 <= i < |log| ==> log[i].offset < size && log[i].address == At(dest, log[i].offset)
    ensures forall i :: 0 <= i < |log| ==> log[i].data == m0(At(src, log[i].offset))
    decreases |log|
  {
    if log != [] {
      var p := log[..|log| - 1];
      var a := log[|log| - 1];
      ReadsSource(p, m0, src, dest, size, program);
      forall i | 0 <= i < |p| && p[i].result == HalOk
        ensures p[i].address != At(src, a.offset)
      {
        DisjointAt(src, dest, size, p[i].offset, a.offset);
      }
      ReplayUntouched(m0, p, At(src, a.offset));
      forall i | 0 <= i < |log|
        ensures log[i].offset < size && log[i].address == At(dest, log[i].offset)
        ensures log[i].data == m0(At(src, log[i].offset))
      {
        if i < |p| {
          assert log[i] == p[i];
        }
      }
    }
  }

  /** Disjoint ranges: no destination byte of the copy is a source byte. */
  lemma DisjointAt(src: Word, dest: Word, size: nat, o: nat, p: nat)
    requires Disjoint(src, dest, size) && o < size && p < size
    ensures At(dest, o) != At(src, p)
  {
    assert size <= 4 * WordCount(size);
  }

  /** The successful calls of a log cover the words at offsets 0, 4, ... in turn. */
  lemma {:induction false} SuccessOffsets(log: seq<Attempt>)
    requires Sequenced(log)
    ensures forall k :: 0 <= k < Successes(log) ==>
              exists i :: 0 <= i < |log| && log[i].result == HalOk && log[i].offset == 4 * k
    decreases |log|
  {
    if log != [] {
      var p := log[..|log| - 1];
      var last := log[|log| - 1];
      SuccessOffsets(p);
      assert Successes(log) == Successes(p) + (if last.result == HalOk then 1 else 0);
      assert last.offset == 4 * Successes(p);
      forall k | 0 <= k < Successes(log)
        ensures exists i :: 0 <= i < |log| && log[i].result == HalOk && log[i].offset == 4 * k
      {
        if k < Successes(p) {
          var i :| 0 <= i < |p| && p[i].result == HalOk && p[i].offset == 4 * k;
          assert log[i] == p[i];
        } else {
          assert last.result == HalOk && last.offset == 4 * k;
          assert log[|log| - 1] == last;
        }
      }
    } else {
      assert Successes(log) == 0;
    }
  }

  /**
   * A word of memory that some successful call wrote, where every successful
   * call that wrote it wrote the same data, holds its first value ANDed with
   * that data.
   */
  lemma {:induction false} ReplayWritten(m0: Mem, log: seq<Attempt>, x: Word, d: Word)
    requires exists i :: 0 <= i < |log| && log[i].result == HalOk && log[i].address == x
    requires forall i :: 0 <= i < |log| && log[i].result == HalOk && log[i].address == x ==> log[i].data == d
    ensures Replay(m0, log)(x) == Programmed(m0(x), d)
    decreases |log|
  {
    var p := log[..|log| - 1];
    var a := log[|log| - 1];
    forall j | 0 <= j < |p| && p[j].result == HalOk && p[j].address == x
      ensures p[j].data == d
    {
      assert p[j] == log[j];
    }
    if a.result == HalOk && a.address == x {
      if exists i :: 0 <= i < |p| && p[i].result == HalOk && p[i].address == x {
        ReplayWritten(m0, p, x, d);
        ProgramTwice(m0(x), d);
      } else {
        ReplayUntouched(m0, p, x);
      }
    } else {
      var i :| 0 <= i < |log| && log[i].result == HalOk && log[i].address == x;
      assert i < |p| && p[i] == log[i];
      ReplayWritten(m0, p, x, d);
    }
  }

  /**
   * A copy that finishes, between non-overlapping ranges, has programmed
   * every word of the source range at the same offset in the destination,
   * and each destination word holds its first value ANDed with the source
   * word at its offset as it was before the copy began: onto an erased
   * destination, the image itself.
   */
  lemma CopiesEveryWord(log: seq<Attempt>, mem: Mem, result: Returned, m0: Mem, src: Word, dest: Word, size: nat,
                        program: nat -> HalResult)
    requires Outcome(Finished, log, mem, result, m0, src, dest, size, program) && Disjoint(src, dest, size)
    ensures forall k :: 0 <= k < WordCount(size) ==>
              exists i :: 0 <= i < |log| && log[i].result == HalOk
                          && log[i].address == At(dest, 4 * k) && log[i].data == m0(At(src, 4 * k))
    ensures forall k :: 0 <= k < WordCount(size) ==> mem(At(dest, 4 * k)) == Programmed(m0(At(dest, 4 * k)), m0(At(src, 4 * k)))
    ensures forall k :: 0 <= k < WordCount(size) && m0(At(dest, 4 * k)) == Erased ==> mem(At(dest, 4 * k)) == m0(At(src, 4 * k))
  {
    SuccessOffsets(log);
    ReadsSource(log, m0, src, dest, size, program);
    forall k | 0 <= k < WordCount(size)
      ensures exists i :: 0 <= i < |log| && log[i].result == HalOk
                          && log[i].address == At(dest, 4 * k) && log[i].data == m0(At(src, 4 * k))
      ensures mem(At(dest, 4 * k)) == Programmed(m0(At(dest, 4 * k)), m0(At(src, 4 * k)))
      ensures m0(At(dest, 4 * k)) == Erased ==> mem(At(dest, 4 * k)) == m0(At(src, 4 * k))
    {
      CopiesWord(log, m0, src, dest, size, k);
      ProgramErased(m0(At(src, 4 * k)));
    }
  }

  /** One word of CopiesEveryWord: the word at offset 4k was programmed once, with the source word. */
  lemma CopiesWord(log: seq<Attempt>, m0: Mem, src: Word, dest: Word, size: nat, k: nat)
    requires size < CounterRange && 4 * k < size
    requires exists i :: 0 <= i < |log| && log[i].result == HalOk && log[i].offset == 4 * k
    requires forall i :: 0 <= i < |log| ==> log[i].offset < size && log[i].address == At(dest, log[i].offset)
    requires forall i :: 0 <= i < |log| ==> log[i].data == m0(At(src, log[i].offset))
    ensures exists i :: 0 <= i < |log| && log[i].result == HalOk
                        && log[i].address == At(dest, 4 * k) && log[i].data == m0(At(src, 4 * k))
    ensures Replay(m0, log)(At(dest, 4 * k)) == Programmed(m0(At(dest, 4 * k)), m0(At(src, 4 * k)))
  {
    var i :| 0 <= i < |log| && log[i].result == HalOk && log[i].offset == 4 * k;
    assert log[i].address == At(dest, 4 * k);
    forall j | 0 <= j < |log| && log[j].result == HalOk && log[j].address == At(dest, 4 * k)
      ensures log[j].data == m0(At(src, 4 * k))
    {
      AtInjective(dest, log[j].offset, 4 * k);
    }
    ReplayWritten(m0, log, At(dest, 4 * k), m0(At(src, 4 * k)));
  }

  /** `operation_state_error` is left unassigned exactly when no call failed. */
  lemma {:induction false} UnassignedIffNoFailure(log: seq<Attempt>)
    ensures LastError(log) == Unassigned <==> forall i :: 0 <= i < |log| ==> log[i].result == HalOk
    decreases |log|
  {
    if log != [] {
      var p := log[..|log| - 1];
      UnassignedIffNoFailure(p);
      assert forall i :: 0 <= i < |p| ==> p[i] == log[i];
    }
  }

  /**
   * As written, a copy that finishes after one retried word still returns the
   * code of that retry: with one 4-byte word whose first call fails with
   * code 2 and whose second call succeeds, the loop finishes, the word is
   * programmed, and the return value is 2, which the COPY handler answers
   * with a NACK.
   */
  lemma StaleResultAfterRetry(m0: Mem, src: Word, dest: Word, program: nat -> HalResult)
    requires program(0) == HalError(2) && program(1) == HalOk
    ensures var c := Run(Start(m0), src, dest, 4, program);
            c.exit == Finished && c.mem(dest) == Programmed(m0(dest), m0(src)) && c.result == Code(2)
  {
    var s0 := Start(m0);
    var data := m0(At(src, 0));
    RetryRun(s0, data, src, dest, 4, program);
    var a0 := Attempt(0, At(dest, 0), data, HalError(2));
    var s1 := Loop(0, 1, data, [a0], m0, Code(2));
    AdvanceRun(s1, data, src, dest, 4, program);
    var a1 := Attempt(0, At(dest, 0), data, HalOk);
    var s2 := Loop(4, 0, data, [a0, a1], Program(m0, At(dest, 0), data), Code(2));
    assert [a0] + [a1] == [a0, a1];
    assert Run(s2, src, dest, 4, program) == Copied(Code(2), [a0, a1], Program(m0, At(dest, 0), data), Finished);
  }

  /** HAL_OK as a `uint32_t`. */
  const HalOkCode: Word := 0

  /**
   * BOOT_CPY_IMAGE with the return value it evidently intends: HAL_OK when
   * every word was programmed, and otherwise the code of the failure that
   * stopped it.
   */
  method CopyImageFixed(m0: Mem, src: Word, dest: Word, size: Uint32, unlock: HalResult, program: nat -> HalResult)
    returns (result: Returned, log: seq<Attempt>, mem: Mem, exit: CopyExit)
    ensures exit == UnlockFailed <==> unlock.HalError?
    ensures exit == UnlockFailed ==> log == [] && mem == m0 && result == Code(unlock.code)
    ensures exit == Finished ==> result == Code(HalOkCode) && Successes(log) == WordCount(size as nat)
    ensures exit == RetriesExhausted ==>
              log != [] && log[|log| - 1].result.HalError? && result == Code(log[|log| - 1].result.code)
    ensures exit != UnlockFailed ==>
              Progress(log, m0, src, dest, size as nat, program) && mem == Replay(m0, log)
  {
    result, log, mem, exit := CopyImage(m0, src, dest, size, unlock, program);
    if exit == Finished {
      result := Code(HalOkCode);
    }
  }
}
