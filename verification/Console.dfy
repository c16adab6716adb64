/** The console line discipline in src/kernel/console.c.

    A method is one stretch under the console lock: a keystroke, or a reader until it returns or sleeps. A run is any
    interleaving of the two. The three indices are 32-bit and wrap. */
module Console {
  import opened Blocks

  const INPUT_BUF: nat := 128
  const WRAP: nat := 0x1_0000_0000
  const CTRL_D: Byte := 4
  const NEWLINE: Byte := 10
  const RETURN: Byte := 13
  const CTRL_P: Byte := 16
  const CTRL_U: Byte := 21
  const DELETE: Byte := 127

  /** A keystroke the console took, or the moment a full buffer makes the line available. */
  datatype Event = Press(c: Byte) | Full

  /** Lines given to readers so far, and the line being edited. */
  datatype Edit = Edit(done: seq<Byte>, line: seq<Byte>)

  function Flush(e: Edit): Edit {
    Edit(e.done + e.line, [])
  }

  /** Line editing with no buffer limit: the reference the ring is compared with. */
  function Apply(e: Edit, v: Event): Edit {
    match v
    case Full => Flush(e)
    case Press(c) =>
      if c == CTRL_P || c == 0 then e
      else if c == CTRL_U then e.(line := [])
      else if c == DELETE then (if e.line == [] then e else e.(line := e.line[..|e.line| - 1]))
      else
        var d := if c == RETURN then NEWLINE else c;
        if d == NEWLINE || d == CTRL_D then Flush(e.(line := e.line + [d])) else e.(line := e.line + [d])
  }

  function Edited(events: seq<Event>): Edit {
    if events == [] then Edit([], []) else Apply(Edited(events[..|events| - 1]), events[|events| - 1])
  }

  /** What each key does to the line, on the history alone. A newline or ^D gives the line to the readers with itself at
      the end; ^U empties it, DELETE takes off its last byte, and ^P and NUL do nothing. */
  lemma EditLaws(events: seq<Event>, c: Byte)
    ensures var e, e' := Edited(events), Edited(events + [Press(c)]);
      && (c == 0 || c == 16 ==> e' == e)
      && (c == 21 ==> e'.done == e.done && e'.line == [])
      && (c == 127 ==> e'.done == e.done && e'.line == if e.line == [] then [] else e.line[..|e.line| - 1])
      && (c == 10 || c == 13 ==> e'.done == e.done + e.line + [10] && e'.line == [])
      && (c == 4 ==> e'.done == e.done + e.line + [4] && e'.line == [])
      && (Plain(c) ==> e'.done == e.done && e'.line == e.line + [c])
  {
    EditedMore(events, Press(c));
    var e := Edited(events);
    assert e.done + (e.line + [10]) == e.done + e.line + [10] && e.done + (e.line + [4]) == e.done + e.line + [4];
  }

  /** A key that is just typed. */
  predicate Plain(c: Byte) {
    c != 0 && c != 4 && c != 10 && c != 13 && c != 16 && c != 21 && c != 127
  }

  function Presses(s: seq<Byte>): (v: seq<Event>)
    ensures |v| == |s| && forall i :: 0 <= i < |s| ==> v[i] == Press(s[i])
  {
    seq(|s|, i requires 0 <= i < |s| => Press(s[i]))
  }

  /** Typed text joins the line. */
  lemma {:induction false} Typed(events: seq<Event>, s: seq<Byte>)
    requires forall i :: 0 <= i < |s| ==> Plain(s[i])
    ensures Edited(events + Presses(s)) == Edited(events).(line := Edited(events).line + s)
    decreases |s|
  {
    if s == [] {
      assert events + Presses(s) == events;
      assert Edited(events).line + s == Edited(events).line;
    } else {
      var n := |s| - 1;
      Typed(events, s[..n]);
      assert events + Presses(s) == events + Presses(s[..n]) + [Press(s[n])];
      hide Edited, Presses;
      EditLaws(events + Presses(s[..n]), s[n]);
      assert s == s[..n] + [s[n]];
    }
  }

  /** Whatever is typed after the last line was given away, ^U takes back, and as many DELETEs as there are bytes do
      too; then a line typed and entered reaches the readers as typed. */
  lemma TypedAndKilled(events: seq<Event>, s: seq<Byte>, t: seq<Byte>)
    requires Edited(events).line == []
    requires (forall i :: 0 <= i < |s| ==> Plain(s[i])) && (forall i :: 0 <= i < |t| ==> Plain(t[i]))
    ensures Edited(events + Presses(s) + [Press(21)]) == Edited(events)
    ensures Edited(events + Presses(s) + Presses(seq(|s|, i => 127))) == Edited(events)
    ensures var e := Edited(events + Presses(s) + [Press(21)] + Presses(t) + [Press(13)]);
      e.done == Edited(events).done + t + [10] && e.line == []
  {
    Typed(events, s);
    var a := events + Presses(s);
    EditLaws(a, 21);
    Typed(a + [Press(21)], t);
    EditLaws(a + [Press(21)] + Presses(t), 13);
    Erased(a, |s|);
    assert [] + t == t && [] + s == s;
    assert s[..|s| - |s|] == [];
  }

  /** n DELETEs take n bytes off the line, or all of them. */
  lemma {:induction false} Erased(events: seq<Event>, n: nat)
    requires n <= |Edited(events).line|
    ensures var e := Edited(events);
      Edited(events + Presses(seq(n, i => 127))) == e.(line := e.line[..|e.line| - n])
  {
    var e := Edited(events);
    if n == 0 {
      assert events + Presses(seq(0, i => 127)) == events && e.line[..|e.line|] == e.line;
    } else {
      Erased(events, n - 1);
      var a := events + Presses(seq(n - 1, i => 127));
      assert events + Presses(seq(n, i => 127)) == a + [Press(127)];
      EditLaws(a, 127);
      assert e.line[..|e.line| - (n - 1)][..|e.line| - n] == e.line[..|e.line| - n];
    }
  }

  /** Readers never see an edited-out byte: what is done only ever grows. */
  lemma {:induction false} DoneGrows(events: seq<Event>, more: seq<Event>)
    ensures Edited(events).done <= Edited(events + more).done
    decreases |more|
  {
    if more == [] {
      assert events + more == events;
    } else {
      var last := |more| - 1;
      DoneGrows(events, more[..last]);
      assert (events + more)[..|events + more| - 1] == events + more[..last];
    }
  }

  ghost predicate NoEnd(s: seq<Byte>) {
    forall i :: 0 <= i < |s| ==> s[i] != NEWLINE && s[i] != CTRL_D
  }

  /** The ring holds s from position start on. */
  ghost predicate Holds(buf: seq<Byte>, start: nat, s: seq<Byte>) {
    |buf| == INPUT_BUF && |s| <= INPUT_BUF && forall k :: 0 <= k < |s| ==> buf[(start + k) % INPUT_BUF] == s[k]
  }

  lemma HoldsPush(buf: seq<Byte>, start: nat, s: seq<Byte>, c: Byte)
    requires Holds(buf, start, s) && |s| < INPUT_BUF
    ensures Holds(buf[(start + |s|) % INPUT_BUF := c], start, s + [c])
  {
    var b := buf[(start + |s|) % INPUT_BUF := c];
    forall k | 0 <= k < |s| + 1 ensures b[(start + k) % INPUT_BUF] == (s + [c])[k] {
      if k < |s| { Near(start, k, |s|); }
    }
  }

  lemma Near(start: nat, k: nat, n: nat)
    requires k < n < INPUT_BUF
    ensures (start + k) % INPUT_BUF != (start + n) % INPUT_BUF
  {}

  lemma HoldsPop(buf: seq<Byte>, start: nat, s: seq<Byte>, n: nat)
    requires Holds(buf, start, s) && n <= |s|
    ensures Holds(buf, start + n, s[n..])
  {
    forall k | 0 <= k < |s| - n ensures buf[(start + n + k) % INPUT_BUF] == s[n..][k] {
      assert buf[(start + (n + k)) % INPUT_BUF] == s[n + k];
    }
  }

  /** The index of the byte at position p of the whole stream, as the source computes it from a wrapped counter. */
  lemma RingIndex(p: nat)
    ensures (p % WRAP) % INPUT_BUF == p % INPUT_BUF
  {
    var q, r := p / WRAP, p % WRAP;
    assert p == INPUT_BUF * (q * 0x200_0000) + r;
  }

  /** Unsigned subtraction of wrapped counters gives the true difference while it is small. */
  lemma Difference(a: nat, b: nat)
    requires a <= b <= a + INPUT_BUF
    ensures (b % WRAP - a % WRAP) % WRAP == b - a
    ensures (b % WRAP == a % WRAP) <==> a == b
    ensures (b % WRAP == (a % WRAP + INPUT_BUF) % WRAP) <==> b == a + INPUT_BUF
  {
    var q, r := a / WRAP, a % WRAP;
    assert b == q * WRAP + (r + (b - a));
    if r + (b - a) < WRAP {
      assert b % WRAP == r + (b - a);
    } else {
      assert b == (q + 1) * WRAP + (r + (b - a) - WRAP);
      assert b % WRAP == r + (b - a) - WRAP;
    }
  }

  /** The ring and its indices stand for the edited input, less what readers have consumed. */
  ghost predicate Ring(buf: seq<Byte>, read: Word, write: Word, edit: Word, consumed: seq<Byte>, e: Edit) {
    && consumed <= e.done && NoEnd(e.line)
    && read == |consumed| % WRAP && write == |e.done| % WRAP && edit == (|e.done| + |e.line|) % WRAP
    && Holds(buf, |consumed|, (e.done + e.line)[|consumed|..])
    && (|e.done| + |e.line| == |consumed| + INPUT_BUF ==> e.line == [])
  }

  /** Bytes in the ring. */
  ghost function Used(consumed: seq<Byte>, e: Edit): int {
    |e.done| + |e.line| - |consumed|
  }

  lemma Order(buf: seq<Byte>, read: Word, write: Word, edit: Word, consumed: seq<Byte>, e: Edit)
    requires Ring(buf, read, write, edit, consumed, e)
    ensures |buf| == INPUT_BUF && consumed <= e.done
    ensures 0 <= Used(consumed, e) <= INPUT_BUF && (edit - read) % WRAP == Used(consumed, e)
    ensures (read == write <==> |consumed| == |e.done|) && (edit == write <==> e.line == [])
    ensures edit % INPUT_BUF == (|consumed| + Used(consumed, e)) % INPUT_BUF &&
            read % INPUT_BUF == |consumed| % INPUT_BUF
    ensures (edit == (read + INPUT_BUF) % WRAP) <==> Used(consumed, e) == INPUT_BUF
  {
    var n := |e.done| + |e.line|;
    assert |(e.done + e.line)[|consumed|..]| == n - |consumed|;
    Difference(|consumed|, n);
    Difference(|consumed|, |e.done|);
    Difference(|e.done|, n);
    RingIndex(n);
    RingIndex(|consumed|);
  }

  /** A full buffer is all readable, so a reader can always make room. */
  lemma FullIsReadable(buf: seq<Byte>, read: Word, write: Word, edit: Word, consumed: seq<Byte>, e: Edit)
    requires Ring(buf, read, write, edit, consumed, e) && (edit - read) % WRAP >= INPUT_BUF
    ensures read != write && e.line == [] && |e.done| == |consumed| + INPUT_BUF
  {
    Order(buf, read, write, edit, consumed, e);
  }

  lemma Dropped(buf: seq<Byte>, read: Word, write: Word, edit: Word, consumed: seq<Byte>, e: Edit)
    requires Ring(buf, read, write, edit, consumed, e) && e.line != []
    ensures Ring(buf, read, write, Minus(edit), consumed, e.(line := e.line[..|e.line| - 1]))
    ensures |buf| == INPUT_BUF && buf[Minus(edit) % INPUT_BUF] == e.line[|e.line| - 1] != NEWLINE
  {
    var n := |e.done| + |e.line|;
    var e' := e.(line := e.line[..|e.line| - 1]);
    Decrement(n);
    RingIndex(n - 1);
    var s, s' := (e.done + e.line)[|consumed|..], (e'.done + e'.line)[|consumed|..];
    assert s' == s[..|s| - 1];
    HoldsFront(buf, |consumed|, s);
    assert s[|s| - 1] == e.line[|e.line| - 1];
    assert |consumed| + (|s| - 1) == n - 1;
    hide Holds;
  }

  lemma HoldsFront(buf: seq<Byte>, start: nat, s: seq<Byte>)
    requires Holds(buf, start, s) && s != []
    ensures Holds(buf, start, s[..|s| - 1])
    ensures |buf| == INPUT_BUF && buf[(start + (|s| - 1)) % INPUT_BUF] == s[|s| - 1]
  {}

  function Minus(edit: Word): Word {
    (edit - 1) % WRAP
  }

  lemma Decrement(n: nat)
    requires n > 0
    ensures (n % WRAP - 1) % WRAP == (n - 1) % WRAP
  {
    var q, r := n / WRAP, n % WRAP;
    if r == 0 { assert n - 1 == (q - 1) * WRAP + (WRAP - 1); } else { assert n - 1 == q * WRAP + (r - 1); }
  }

  lemma Increment(n: nat)
    ensures (n % WRAP + 1) % WRAP == (n + 1) % WRAP
  {}

  /** A byte is stored; the line becomes readable at its end or when the ring is full. */
  lemma Stored(buf: seq<Byte>, read: Word, write: Word, edit: Word, consumed: seq<Byte>, e: Edit, c: Byte)
    requires Ring(buf, read, write, edit, consumed, e) && Used(consumed, e) < INPUT_BUF
    ensures var e' := e.(line := e.line + [c]);
      var b, x := buf[edit % INPUT_BUF := c], (edit + 1) % WRAP;
      && Ring(b, read, x, x, consumed, Flush(e'))
      && (x == (read + INPUT_BUF) % WRAP <==> Used(consumed, e) + 1 == INPUT_BUF)
      && (c != NEWLINE && c != CTRL_D && Used(consumed, e) + 1 < INPUT_BUF ==> Ring(b, read, write, x, consumed, e'))
  {
    Order(buf, read, write, edit, consumed, e);
    var n := |e.done| + |e.line|;
    var e' := e.(line := e.line + [c]);
    var s := (e.done + e.line)[|consumed|..];
    HoldsPush(buf, |consumed|, s, c);
    Increment(n);
    Difference(|consumed|, n + 1);
    assert (e'.done + e'.line)[|consumed|..] == s + [c];
    assert Flush(e').done + Flush(e').line == e'.done + e'.line;
  }

  lemma Consumed(buf: seq<Byte>, read: Word, write: Word, edit: Word, consumed: seq<Byte>, e: Edit)
    requires Ring(buf, read, write, edit, consumed, e) && read != write
    ensures |consumed| < |e.done| && buf[read % INPUT_BUF] == e.done[|consumed|]
    ensures Ring(buf, Ahead(read, 1), write, edit, e.done[..|consumed| + 1], e)
    ensures e.done[..|consumed| + 1] == consumed + [e.done[|consumed|]]
  {
    Order(buf, read, write, edit, consumed, e);
    var s := (e.done + e.line)[|consumed|..];
    assert buf[(|consumed| + 0) % INPUT_BUF] == s[0];
    HoldsPop(buf, |consumed|, s, 1);
    assert s[1..] == (e.done + e.line)[|consumed| + 1..];
    Increment(|consumed|);
  }

  datatype Status = Done | Asleep | Killed

  class Tty {
    var buf: seq<Byte>
    var read: Word
    var write: Word
    var edit: Word
    ghost var events: seq<Event>
    ghost var consumed: seq<Byte>

    ghost predicate Valid()
      reads this
    {
      Ring(buf, read, write, edit, consumed, Edited(events))
    }

    /** console_init: the indices start at zero. */
    constructor ()
      ensures Valid() && events == [] && consumed == []
    {
      buf, read, write, edit := seq(INPUT_BUF, i => 0), 0, 0, 0;
      events, consumed := [], [];
    }

    /** console_intr; woken tells whether readers are woken. */
    method Key(c: Byte) returns (woken: bool)
      requires Valid()
      modifies this`buf, this`write, this`edit, this`events
      ensures Valid() && events == old(events) + Taken(c, Used(consumed, Edited(old(events))))
      ensures woken ==> read != write
      ensures !woken ==> write == old(write)
      ensures c == 0 || c == 16 ==> buf == old(buf) && edit == old(edit) && write == old(write)
      ensures c == 21 ==> buf == old(buf) && edit == write == old(write)
      ensures c == 127 ==> buf == old(buf) && write == old(write)
      ensures c == 127 ==> edit == if old(edit) != write then (old(edit) - 1) % 0x1_0000_0000 else old(edit)
      ensures Ordinary(c) ==> KeyStored(c, old(buf), read, old(write), old(edit), buf, write, edit)
      ensures woken <==> Ordinary(c) && edit != old(edit) && write == edit
    {
      ghost var e := Edited(events);
      Order(buf, read, write, edit, consumed, e);
      woken := false;
      if c == CTRL_P {
        EditedMore(events, Press(c));
        events := events + [Press(c)];
      } else if c == CTRL_U {
        KillLine();
      } else if c == DELETE {
        EditedMore(events, Press(c));
        if edit != write {
          Dropped(buf, read, write, edit, consumed, e);
          edit := Minus(edit);
        }
        events := events + [Press(c)];
      } else if c != 0 && (edit - read) % WRAP < INPUT_BUF {
        woken := Store(c);
      }
    }

    /** The uncommitted region holds no newline, so the loop clears the whole line. */
    method KillLine()
      requires Valid()
      modifies this`edit, this`events
      ensures Valid() && events == old(events) + [Press(CTRL_U)] && edit == write
    {
      hide Ring, Edited;
      ghost var e, v := Edited(events), events;
      Order(buf, read, write, edit, consumed, e);
      while edit != write && buf[Minus(edit) % INPUT_BUF] != NEWLINE
        invariant Ring(buf, read, write, edit, consumed, e) && |buf| == INPUT_BUF && e.done == Edited(v).done &&
                  events == v
        decreases |e.line|
      {
        Order(buf, read, write, edit, consumed, e);
        Dropped(buf, read, write, edit, consumed, e);
        edit := Minus(edit);
        e := e.(line := e.line[..|e.line| - 1]);
      }
      Order(buf, read, write, edit, consumed, e);
      if e.line != [] { Dropped(buf, read, write, edit, consumed, e); }
      EditedMore(v, Press(CTRL_U));
      assert e == Apply(Edited(v), Press(CTRL_U));
      events := v + [Press(CTRL_U)];
    }

    method Store(c: Byte) returns (woken: bool)
      requires Valid() && Ordinary(c) && Used(consumed, Edited(events)) < INPUT_BUF
      modifies this`buf, this`write, this`edit, this`events
      ensures Valid() && events == old(events) + Taken(c, Used(consumed, Edited(old(events))))
      ensures woken ==> read != write
      ensures !woken ==> write == old(write)
      ensures KeyStored(c, old(buf), read, old(write), old(edit), buf, write, edit)
      ensures woken <==> edit != old(edit) && write == edit
    {
      hide Ring, Edited, Taken, KeyStored, Used;
      StoredKey(buf, read, write, edit, consumed, events, c);
      ghost var used := Used(consumed, Edited(events));
      var d := if c == RETURN then NEWLINE else c;
      buf := buf[edit % INPUT_BUF := d];
      edit := (edit + 1) % WRAP;
      woken := d == NEWLINE || d == CTRL_D || edit == (read + INPUT_BUF) % WRAP;
      if woken { write := edit; }
      events := events + Taken(c, used);
    }

    /** console_read, from the start or from a wakeup, until it returns or sleeps: n bytes are still wanted, got says
        whether this call has delivered any yet, and the copy to the reader fails after limit bytes. */
    method Read(n: int, got: bool, killed: bool, limit: nat) returns (data: seq<Byte>, status: Status)
      requires Valid()
      modifies this`read, this`consumed
      ensures Valid() && old(consumed) + data <= Edited(events).done
      ensures |data| <= (if n > 0 then n else 0) && |data| <= limit
      ensures forall i :: 0 <= i < |data| ==> data[i] != CTRL_D && (data[i] == NEWLINE ==> i == |data| - 1)
      ensures status != Done ==> n > |data| && consumed == old(consumed) + data == Edited(events).done
      ensures status != Done ==> (data == [] || data[|data| - 1] != NEWLINE) && (status == Killed <==> killed)
      ensures status == Done ==> Outcome(old(consumed), data, consumed, Edited(events).done, n, got, limit)
      ensures ReadOff(buf, old(read), data)
      ensures |consumed| >= |old(consumed)| && read == Ahead(old(read), |consumed| - |old(consumed)|)
      ensures status != Done ==> read == write
    {
      hide Ring, Edited, ReadOff, Outcome, Ahead;
      ghost var e, c0 := Edited(events), consumed;
      Order(buf, read, write, edit, consumed, e);
      data := [];
      ReadOffNone(buf, read);
      var left := n;
      while left > 0
        invariant Valid() && consumed == c0 + data <= e.done && left == n - |data| && (n > 0 ==> left >= 0) &&
                  |data| <= limit
        invariant forall i :: 0 <= i < |data| ==> data[i] != CTRL_D && data[i] != NEWLINE
        invariant n <= 0 ==> data == []
        invariant |buf| == INPUT_BUF && read == Ahead(old(read), |data|) && ReadOff(buf, old(read), data)
      {
        Order(buf, read, write, edit, consumed, e);
        if read == write {
          return data, if killed then Killed else Asleep;
        }
        Consumed(buf, read, write, edit, consumed, e);
        ReadOffMore(buf, old(read), data);
        var c := buf[read % INPUT_BUF];
        if c == CTRL_D {
          if !got && data == [] {
            read, consumed := Ahead(read, 1), consumed + [c];
          }
          EndsAtMark(c0, data, e.done, n, got, limit);
          return data, Done;
        }
        read, consumed := Ahead(read, 1), consumed + [c];
        assert consumed == c0 + data + [e.done[|c0| + |data|]] == c0 + (data + [c]);
        if |data| == limit {
          EndsAtFault(c0, data, e.done, n, got, limit);
          return data, Done;
        }
        data := data + [c];
        left := left - 1;
        if c == NEWLINE {
          EndsWithLine(c0, data, e.done, n, got, limit);
          return data, Done;
        }
      }
      EndsWithLine(c0, data, e.done, n, got, limit);
      return data, Done;
    }
  }

  lemma EndsAtMark(before: seq<Byte>, data: seq<Byte>, done: seq<Byte>, n: int, got: bool, limit: nat)
    requires |before| + |data| < |done| && done[|before| + |data|] == CTRL_D && |data| < n
    ensures !got && data == [] ==> Outcome(before, data, before + data + [CTRL_D], done, n, got, limit)
    ensures got || data != [] ==> Outcome(before, data, before + data, done, n, got, limit)
  {
    assert before + data + [] == before + data;
  }

  lemma EndsAtFault(before: seq<Byte>, data: seq<Byte>, done: seq<Byte>, n: int, got: bool, limit: nat)
    requires |before| + |data| < |done| && |data| == limit && |data| < n
    ensures Outcome(before, data, before + data + [done[|before| + |data|]], done, n, got, limit)
  {}

  lemma EndsWithLine(before: seq<Byte>, data: seq<Byte>, done: seq<Byte>, n: int, got: bool, limit: nat)
    requires |data| >= n || (data != [] && data[|data| - 1] == NEWLINE)
    ensures Outcome(before, data, before + data, done, n, got, limit)
  {}

  /** Why a read returned, and what it took out of the ring: only an end-of-file mark read on its own, or a byte that
      could not be copied, is consumed without being delivered. */
  ghost predicate Outcome(before: seq<Byte>, data: seq<Byte>, after: seq<Byte>, done: seq<Byte>, n: int, got: bool,
                          limit: nat) {
    var m := |before| + |data|;
    || (after == before + data && (|data| >= n || (data != [] && data[|data| - 1] == NEWLINE)))
    || (m < |done| && done[m] == CTRL_D && |data| < n &&
         after == before + data + (if !got && data == [] then [CTRL_D] else []))
    || (m < |done| && |data| == limit && |data| < n && after == before + data + [done[m]])
  }

  /** The bytes are those in the ring from the read index on. */
  ghost predicate ReadOff(buf: seq<Byte>, read: Word, data: seq<Byte>) {
    |buf| == 128 && forall k :: 0 <= k < |data| ==> data[k] == buf[(read + k) % 0x1_0000_0000 % 128]
  }

  lemma ReadOffNone(buf: seq<Byte>, read: Word)
    requires |buf| == INPUT_BUF
    ensures ReadOff(buf, read, []) && Ahead(read, 0) == read
  {}

  lemma ReadOffMore(buf: seq<Byte>, read: Word, data: seq<Byte>)
    requires ReadOff(buf, read, data)
    ensures |buf| == INPUT_BUF && ReadOff(buf, read, data + [buf[Ahead(read, |data|) % INPUT_BUF]])
    ensures Ahead(Ahead(read, |data|), 1) == Ahead(read, |data| + 1)
  {
    Increment(read + |data|);
  }

  /** A 32-bit index n further on. */
  function Ahead(a: Word, n: nat): Word {
    (a + n) % 0x1_0000_0000
  }

  predicate Ordinary(c: Byte) {
    c != 0 && c != CTRL_P && c != CTRL_U && c != DELETE
  }

  /** An ordinary key on the fields: with 128 bytes in the ring it is dropped; otherwise it goes to the edit index, a
      carriage return as a newline, and what is edited becomes readable exactly at a newline, at ^D or when the ring
      is full. */
  predicate KeyStored(c: Byte, buf: seq<Byte>, read: Word, write: Word, edit: Word,
                      buf': seq<Byte>, write': Word, edit': Word) {
    if (edit - read) % 0x1_0000_0000 >= 128 then buf' == buf && write' == write && edit' == edit
    else
      var d := if c == 13 then 10 else c;
      && |buf| == 128 && buf' == buf[edit % 128 := d] && edit' == (edit + 1) % 0x1_0000_0000
      && write' == if d == 10 || d == 4 || edit' == (read + 128) % 0x1_0000_0000 then edit' else write
  }

  /** What a keystroke adds to the editing history when the ring holds used bytes. */
  function Taken(c: Byte, used: int): seq<Event> {
    if c == 0 then []
    else if !Ordinary(c) then [Press(c)]
    else if used >= INPUT_BUF then []
    else if c != RETURN && c != NEWLINE && c != CTRL_D && used + 1 == INPUT_BUF then [Press(c), Full]
    else [Press(c)]
  }

  /** An ordinary key that finds room, on the ring's fields and on the history. */
  lemma StoredKey(buf: seq<Byte>, read: Word, write: Word, edit: Word, consumed: seq<Byte>, events: seq<Event>, c: Byte)
    requires Ring(buf, read, write, edit, consumed, Edited(events)) && Ordinary(c)
    requires Used(consumed, Edited(events)) < INPUT_BUF
    ensures |buf| == INPUT_BUF
    ensures var d := if c == RETURN then NEWLINE else c;
      var b, x := buf[edit % INPUT_BUF := d], (edit + 1) % WRAP;
      var woken := d == NEWLINE || d == CTRL_D || x == (read + INPUT_BUF) % WRAP;
      var w := if woken then x else write;
      && Ring(b, read, w, x, consumed, Edited(events + Taken(c, Used(consumed, Edited(events)))))
      && KeyStored(c, buf, read, write, edit, b, w, x)
      && (woken ==> read != w) && (woken <==> x != edit && w == x)
  {
    var e, used := Edited(events), Used(consumed, Edited(events));
    var d := if c == RETURN then NEWLINE else c;
    var b, x := buf[edit % INPUT_BUF := d], (edit + 1) % WRAP;
    var woken := d == NEWLINE || d == CTRL_D || x == (read + INPUT_BUF) % WRAP;
    Order(buf, read, write, edit, consumed, e);
    Stored(buf, read, write, edit, consumed, e, d);
    TakenMeans(events, c, used);
    hide Ring, Edited, Taken;
    Order(b, read, if woken then x else write, x, consumed, Edited(events + Taken(c, used)));
  }

  /** What an ordinary key that finds room adds to the history. */
  lemma TakenMeans(events: seq<Event>, c: Byte, used: int)
    requires Ordinary(c) && used < INPUT_BUF
    ensures var d := if c == RETURN then NEWLINE else c;
      var e := Edited(events).(line := Edited(events).line + [d]);
      Edited(events + Taken(c, used)) == if d == NEWLINE || d == CTRL_D || used + 1 == INPUT_BUF then Flush(e) else e
  {
    EditedMore(events, Press(c));
    EditedMore(events + [Press(c)], Full);
    assert events + [Press(c)] + [Full] == events + [Press(c), Full];
  }

  lemma EditedMore(events: seq<Event>, v: Event)
    ensures Edited(events + [v]) == Apply(Edited(events), v)
  {
    assert (events + [v])[..|events + [v]| - 1] == events;
  }
}
