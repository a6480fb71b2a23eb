/** The directory lock of `crates/kobako-runtime/src/locking.rs`, one critical section at a time.

    `Holders` is the record the mutex protects. Every critical section is a function on it, and the
    class `RwSemaphore` runs the same section on mutable fields. `LockingSystem` interleaves the
    sections of any number of threads. Counters are integers, so an underflow would show as a
    negative count rather than disable a step; the system invariant rules it out. */
module Locking {
  import opened Counting
  import opened Wrappers

  type ThreadId = nat

  datatype DownError = Deadlock | Interrupted

  /** What one call of the `take` closure answers: `Ok(true)`, `Ok(false)`, `Err(Deadlock)`. */
  datatype Taking = Granted | Blocked | Refused

  /** How one pass of the slow path's critical section ends. */
  datatype Attempt =
    | Took
    | GaveUp(error: DownError, notify: bool)
    | Sleeps

  datatype Holders = Holders(
    writer: Option<ThreadId>,
    readers: seq<ThreadId>,
    waiting: int,
    writersWaiting: int)

  const FREE: Holders := Holders(None, [], 0, 0)

  function TakeRead(h: Holders, t: ThreadId): (Holders, Taking) {
    if h.writer == Some(t) then (h, Refused)
    else if h.writer.Some? then (h, Blocked)
    else if h.writersWaiting > 0 && t !in h.readers then (h, Blocked)
    else (h.(readers := h.readers + [t]), Granted)
  }

  function TakeWrite(h: Holders, t: ThreadId): (Holders, Taking) {
    if h.writer == Some(t) || t in h.readers then (h, Refused)
    else if h.writer.Some? || h.readers != [] then (h, Blocked)
    else (h.(writer := Some(t)), Granted)
  }

  function Take(h: Holders, t: ThreadId, exclusive: bool): (Holders, Taking) {
    if exclusive then TakeWrite(h, t) else TakeRead(h, t)
  }

  function TryRead(h: Holders, t: ThreadId): (Holders, bool) {
    if h.writer.Some? || h.writersWaiting > 0 then (h, false)
    else (h.(readers := h.readers + [t]), true)
  }

  function TryWrite(h: Holders, t: ThreadId): (Holders, bool) {
    if h.writer.Some? || h.readers != [] then (h, false)
    else (h.(writer := Some(t)), true)
  }

  /** The slow path joins the writers' count before it first asks. */
  function Queue(h: Holders, exclusive: bool): Holders {
    h.(writersWaiting := h.writersWaiting + Bit(exclusive))
  }

  /** One pass of the slow path's loop body, up to the sleep or through the exit after the loop. */
  function Ask(h: Holders, t: ThreadId, exclusive: bool, fatal: bool): (Holders, Attempt) {
    var (h1, r) := Take(h, t, exclusive);
    var left := h1.(writersWaiting := h1.writersWaiting - Bit(exclusive));
    if r.Granted? then (left, Took)
    else if r.Refused? then (left, GaveUp(Deadlock, left.waiting > 0))
    else if fatal then (left, GaveUp(Interrupted, left.waiting > 0))
    else (h1.(waiting := h1.waiting + 1), Sleeps)
  }

  /** The section a thread runs once `wait_timeout` hands the mutex back. */
  function Resume(h: Holders, t: ThreadId, exclusive: bool, fatal: bool): (Holders, Attempt) {
    Ask(h.(waiting := h.waiting - 1), t, exclusive, fatal)
  }

  function Position(s: seq<ThreadId>, t: ThreadId): (at: nat)
    ensures at <= |s|
    ensures at < |s| ==> s[at] == t
    ensures t !in s[..at]
  {
    if s == [] || s[0] == t then 0
    else
      assert s[..1 + Position(s[1..], t)] == [s[0]] + s[1..][..Position(s[1..], t)];
      1 + Position(s[1..], t)
  }

  /** `Vec::swap_remove`. */
  function SwapRemove(s: seq<ThreadId>, at: nat): (r: seq<ThreadId>)
    requires at < |s|
    ensures multiset(r) == multiset(s) - multiset{s[at]}
  {
    var last := |s| - 1;
    assert s == s[..last] + [s[last]];
    if at == last then s[..last]
    else
      assert s[..last] == s[..at] + [s[at]] + s[at + 1..last];
      assert s[..last][at := s[last]] == s[..at] + [s[last]] + s[at + 1..last];
      s[..last][at := s[last]]
  }

  /** A guard's drop, and whether it owes a notification once the mutex is free. */
  function Release(h: Holders, holder: ThreadId, exclusive: bool): (Holders, bool) {
    var h1 :=
      if exclusive then h.(writer := None)
      else
        var at := Position(h.readers, holder);
        if at < |h.readers| then h.(readers := SwapRemove(h.readers, at)) else h;
    (h1, h1.waiting > 0)
  }

  lemma ReleaseShared(h: Holders, holder: ThreadId)
    ensures multiset(Release(h, holder, false).0.readers) == multiset(h.readers) - multiset{holder}
  {
  }

  class RwSemaphore {
    var writer: Option<ThreadId>
    var readers: seq<ThreadId>
    var waiting: int
    var writersWaiting: int

    ghost function View(): Holders
      reads this
    {
      Holders(writer, readers, waiting, writersWaiting)
    }

    constructor ()
      ensures View() == FREE
    {
      writer, readers, waiting, writersWaiting := None, [], 0, 0;
    }

    method AskRead(current: ThreadId) returns (taking: Taking)
      modifies this
      ensures (View(), taking) == TakeRead(old(View()), current)
    {
      match writer {
        case Some(w) => return if w == current then Refused else Blocked;
        case None =>
          if writersWaiting > 0 && current !in readers {
            return Blocked;
          }
          readers := readers + [current];
          return Granted;
      }
    }

    method AskWrite(current: ThreadId) returns (taking: Taking)
      modifies this
      ensures (View(), taking) == TakeWrite(old(View()), current)
    {
      if writer == Some(current) || current in readers {
        return Refused;
      }
      if writer.Some? || readers != [] {
        return Blocked;
      }
      writer := Some(current);
      return Granted;
    }

    method DownReadTrylock(current: ThreadId) returns (held: bool)
      modifies this
      ensures (View(), held) == TryRead(old(View()), current)
    {
      if writer.Some? || writersWaiting > 0 {
        return false;
      }
      readers := readers + [current];
      return true;
    }

    method DownWriteTrylock(current: ThreadId) returns (held: bool)
      modifies this
      ensures (View(), held) == TryWrite(old(View()), current)
    {
      if writer.Some? || readers != [] {
        return false;
      }
      writer := Some(current);
      return true;
    }

    /** The slow path's first section: join the queue, then ask. */
    method SlowpathEnter(current: ThreadId, exclusive: bool, fatal: bool) returns (attempt: Attempt)
      modifies this
      ensures (View(), attempt) == Ask(Queue(old(View()), exclusive), current, exclusive, fatal)
    {
      writersWaiting := writersWaiting + Bit(exclusive);
      attempt := SlowpathAsk(current, exclusive, fatal);
    }

    /** The slow path's section after a sleep. */
    method SlowpathWake(current: ThreadId, exclusive: bool, fatal: bool) returns (attempt: Attempt)
      modifies this
      ensures (View(), attempt) == Resume(old(View()), current, exclusive, fatal)
    {
      waiting := waiting - 1;
      attempt := SlowpathAsk(current, exclusive, fatal);
    }

    method SlowpathAsk(current: ThreadId, exclusive: bool, fatal: bool) returns (attempt: Attempt)
      modifies this
      ensures (View(), attempt) == Ask(old(View()), current, exclusive, fatal)
    {
      var taking;
      if exclusive {
        taking := AskWrite(current);
      } else {
        taking := AskRead(current);
      }
      var taken: Option<DownError> := None;
      match taking {
        case Granted =>
        case Refused => taken := Some(Deadlock);
        case Blocked =>
          if !fatal {
            waiting := waiting + 1;
            return Sleeps;
          }
          taken := Some(Interrupted);
      }
      writersWaiting := writersWaiting - Bit(exclusive);
      match taken {
        case None => return Took;
        case Some(error) => return GaveUp(error, waiting > 0);
      }
    }

    method Drop(holder: ThreadId, exclusive: bool) returns (notify: bool)
      modifies this
      ensures (View(), notify) == Release(old(View()), holder, exclusive)
    {
      if exclusive {
        writer := None;
      } else {
        var at := 0;
        while at < |readers| && readers[at] != holder
          invariant 0 <= at <= |readers|
          invariant holder !in readers[..at]
          invariant View() == old(View())
        {
          assert readers[..at + 1] == readers[..at] + [readers[at]];
          at := at + 1;
        }
        assert Position(readers, holder) == at;
        if at < |readers| {
          readers := SwapRemove(readers, at);
        }
      }
      notify := waiting > 0;
    }
  }
}
