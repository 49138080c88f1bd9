/**
  The output path of a request: `http_append_to_output_buf` and `http_send` in
  `src/core_http.c`, and `events_out_data` in `src/core_server.c`.  What the socket
  accepts is a parameter of each step.
 */
module HttpOutput {
  import opened Prelude

  /** A vector of buffers; an entry is the bytes that it still refers to. */
  type IoVec = seq<seq<Byte>>

  function Flat(v: IoVec): seq<Byte> { if v == [] then [] else v[0] + Flat(v[1..]) }

  lemma FlatCons(s: seq<Byte>, w: IoVec)
    ensures Flat([s] + w) == s + Flat(w)
  {
    assert ([s] + w)[1..] == w;
  }

  lemma Associate(a: seq<Byte>, b: seq<Byte>, c: seq<Byte>)
    ensures (a + b) + c == a + (b + c)
  {
  }

  lemma {:induction false} FlatAppend(v: IoVec, w: IoVec)
    ensures Flat(v + w) == Flat(v) + Flat(w)
  {
    if v == [] {
      assert v + w == w;
    } else {
      hide Flat;
      var rest := v[1..];
      FlatAppend(rest, w);
      FlatCons(v[0], rest);
      FlatCons(v[0], rest + w);
      Associate(v[0], Flat(rest), Flat(w));
      assert v == [v[0]] + rest && v + w == [v[0]] + (rest + w);
    }
  }

  lemma FlatOne(s: seq<Byte>)
    ensures Flat([s]) == s
  {
    assert [s][1..] == [];
  }

  lemma Around<T>(v: seq<T>, i: nat)
    requires i < |v|
    ensures v == v[..i] + ([v[i]] + v[i + 1..]) && v[..i + 1] == v[..i] + [v[i]]
  {
  }

  lemma FlatSplit(v: IoVec, i: nat)
    requires i < |v|
    ensures Flat(v) == Flat(v[..i]) + (v[i] + Flat(v[i + 1..])) && Flat(v[..i + 1]) == Flat(v[..i]) + v[i]
  {
    hide Flat;
    Around(v, i);
    FlatAppend(v[..i], [v[i]] + v[i + 1..]);
    FlatCons(v[i], v[i + 1..]);
    FlatAppend(v[..i], [v[i]]);
    FlatOne(v[i]);
  }

  /** Advance a vector by the `res` bytes that were accepted: skip the entries that are
      used up and shorten the next one in place. */
  method Advance(v: IoVec, res: nat) returns (w: IoVec)
    requires res <= |Flat(v)|
    ensures Flat(w) == Flat(v)[res..]
  {
    hide Flat;
    var i, size := 0, 0;
    assert Flat(v[..0]) == [] by { Nothing(v); }
    while i < |v|
      invariant 0 <= i <= |v| && size == |Flat(v[..i])| && (i > 0 ==> size < res)
    {
      FlatSplit(v, i);
      size := size + |v[i]|;
      if size >= res {
        var d := |v[i]| - (size - res);
        w := [v[i][d..]] + v[i + 1..];
        Shortened(v, i, d);
        return;
      }
      i := i + 1;
    }
    assert v[..|v|] == v;
    w := v;
  }

  lemma Nothing(v: IoVec)
    ensures Flat(v[..0]) == []
  {
  }

  lemma Shortened(v: IoVec, i: nat, d: nat)
    requires i < |v| && d <= |v[i]|
    ensures |Flat(v[..i])| + d <= |Flat(v)|
    ensures Flat([v[i][d..]] + v[i + 1..]) == Flat(v)[|Flat(v[..i])| + d..]
  {
    hide Flat;
    FlatAppend([v[i][d..]], v[i + 1..]);
    FlatOne(v[i][d..]);
    FlatSplit(v, i);
    Dropped(Flat(v[..i]), v[i], Flat(v[i + 1..]), d);
  }

  lemma Dropped(a: seq<Byte>, b: seq<Byte>, c: seq<Byte>, d: nat)
    requires d <= |b|
    ensures b[d..] + c == (a + (b + c))[|a| + d..]
  {
  }

  /** What one event on the socket brings: the result of `writev` or `sendfile` (-1 for an
      error), and whether the error is other than "try again". */
  datatype Event = Event(res: int, hard: bool)

  // ---------- what a sequence of events amounts to ----------

  /** How far a request has come: bytes of the vector still to send, the position in the
      file, whether the request has been ended, and whether it has been cleaned up. */
  datatype Progress = Progress(total: int, offset: int, ended: bool, cleaned: bool)

  /** The file to send after the buffers, if any, up to `last`. */
  datatype File = NoFile | Upto(last: int)

  function Min(a: int, b: int): int { if a < b then a else b }

  /** Bytes of the file that are still to be sent. */
  function Left(f: File, p: Progress): nat { if f.Upto? && p.offset < f.last then f.last - p.offset else 0 }

  /** One event: first the vector, then the file; the event after the last byte of the
      vector, or the one that completes the file, ends the request. */
  function Advanced(f: File, p: Progress, ev: Event): Progress {
    if p.cleaned then p
    else if p.total > 0 then
      if ev.res < 0 then p.(cleaned := true) else p.(total := p.total - Min(ev.res, p.total))
    else if f.Upto? && ev.res < 0 && ev.hard then p.(cleaned := true)
    else
      var q := p.(offset := p.offset + if f.Upto? && ev.res > 0 then Min(ev.res, Left(f, p)) else 0);
      if Left(f, q) > 0 then q else q.(ended := true, cleaned := true)
  }

  function After(f: File, p: Progress, events: seq<Event>): Progress
    decreases |events|
  {
    if events == [] then p else After(f, Advanced(f, p, events[0]), events[1..])
  }

  lemma {:induction false} AfterSnoc(f: File, p: Progress, events: seq<Event>, ev: Event)
    ensures After(f, p, events + [ev]) == Advanced(f, After(f, p, events), ev)
    decreases |events|
  {
    if events == [] {
      assert [ev][1..] == [];
    } else {
      assert (events + [ev])[1..] == events[1..] + [ev];
      AfterSnoc(f, Advanced(f, p, events[0]), events[1..], ev);
    }
  }

  /** Bytes that one event moved. */
  function Moved(p: Progress, q: Progress): int { (p.total - q.total) + (q.offset - p.offset) }

  /** All bytes that a sequence of events moved. */
  function AllMoved(f: File, p: Progress, events: seq<Event>): int
    decreases |events|
  {
    if events == [] then 0 else
      var q := Advanced(f, p, events[0]);
      Moved(p, q) + AllMoved(f, q, events[1..])
  }

  /** The bytes moved are those that are no longer to be sent, and a request is ended only
      when nothing is left. */
  lemma {:induction false} Conserved(f: File, p: Progress, events: seq<Event>)
    requires 0 <= p.total && (p.ended ==> p.cleaned && p.total == 0 && Left(f, p) == 0)
    ensures var q := After(f, p, events);
            && 0 <= q.total <= p.total && p.offset <= q.offset
            && (q.total + Left(f, q)) + AllMoved(f, p, events) == p.total + Left(f, p)
            && (q.ended ==> q.cleaned && q.total == 0 && Left(f, q) == 0)
    decreases |events|
  {
    if events != [] { Conserved(f, Advanced(f, p, events[0]), events[1..]); }
  }

  lemma {:induction false} Stays(f: File, p: Progress, events: seq<Event>)
    requires p.cleaned
    ensures After(f, p, events) == p
    decreases |events|
  {
    if events != [] { Stays(f, p, events[1..]); }
  }

  /** The event is an error that ends the connection: any error while bytes of the vector are
      left, or one other than "try again" while the file is sent. */
  predicate Fatal(f: File, p: Progress, ev: Event) {
    !p.cleaned && ev.res < 0 && (p.total > 0 || (f.Upto? && ev.hard))
  }

  /** An error moves no byte; it cleans up without ending the request exactly if it is fatal. */
  lemma ErrorEffect(f: File, p: Progress, ev: Event)
    requires ev.res < 0 && 0 <= p.total && !p.cleaned && !p.ended
    ensures var q := Advanced(f, p, ev);
            && q.total == p.total && q.offset == p.offset
            && (q.cleaned && !q.ended <==> Fatal(f, p, ev))
            && (q.ended <==> p.total == 0 && Left(f, p) == 0 && !Fatal(f, p, ev))
  {
  }

  /** Some event of the sequence was fatal when it came. */
  ghost predicate SomeFatal(f: File, p: Progress, events: seq<Event>)
    decreases |events|
  {
    events != [] && (Fatal(f, p, events[0]) || SomeFatal(f, Advanced(f, p, events[0]), events[1..]))
  }

  /** A request is cleaned up without having been ended exactly if some event was fatal. */
  lemma {:induction false} AbandonedExactly(f: File, p: Progress, events: seq<Event>)
    requires 0 <= p.total && !p.ended && !p.cleaned
    ensures var q := After(f, p, events); q.cleaned && !q.ended <==> SomeFatal(f, p, events)
    decreases |events|
  {
    if events != [] {
      var q := Advanced(f, p, events[0]);
      if q.cleaned {
        Stays(f, q, events[1..]);
        NoneFatal(f, q, events[1..]);
      } else {
        AbandonedExactly(f, q, events[1..]);
      }
    }
  }

  lemma {:induction false} NoneFatal(f: File, p: Progress, events: seq<Event>)
    requires p.cleaned
    ensures !SomeFatal(f, p, events)
    decreases |events|
  {
    if events != [] { NoneFatal(f, p, events[1..]); }
  }

  /** Without errors a request is cleaned up exactly if it has been ended. */
  lemma {:induction false} EndedExactly(f: File, p: Progress, events: seq<Event>)
    requires !p.ended && !p.cleaned && forall i :: 0 <= i < |events| ==> events[i].res >= 0
    ensures var q := After(f, p, events); q.ended <==> q.cleaned
    decreases |events|
  {
    if events != [] {
      var q := Advanced(f, p, events[0]);
      if q.cleaned { Stays(f, q, events[1..]); } else { EndedExactly(f, q, events[1..]); }
    }
  }

  /** If every event moves a byte while there is one, more events than bytes end the request. */
  lemma {:induction false} Completes(f: File, p: Progress, events: seq<Event>)
    requires 0 <= p.total && !p.cleaned && |events| > p.total + Left(f, p)
    requires forall i :: 0 <= i < |events| ==> events[i].res >= 1
    ensures After(f, p, events).ended
    decreases |events|
  {
    var q := Advanced(f, p, events[0]);
    if q.cleaned { Stays(f, q, events[1..]); } else { Completes(f, q, events[1..]); }
  }

  class Response {
    /** `r->out_vec` and `temp.writev_total`. */
    var vec: IoVec
    var total: int
    /** `temp.out_vec`, of `temp.out_vec_len` entries: left over from earlier use until it is set. */
    var temp: IoVec
    var file: File
    var offset: int
    var ended: bool
    var cleaned: bool
    ghost var queued: seq<Byte>
    /** What the socket has accepted. */
    ghost var wire: seq<Byte>

    constructor (stale: IoVec, file: File, offset: int)
      ensures Unsent() && queued == [] && temp == stale && this.file == file
          && State() == Progress(0, offset, false, false)
    {
      vec, total, temp, ended, cleaned := [], 0, stale, false, false;
      this.file, this.offset := file, offset;
      queued, wire := [], [];
    }

    function State(): Progress
      reads this
    {
      Progress(total, offset, ended, cleaned)
    }

    /** Nothing has been sent yet. */
    ghost predicate Unsent()
      reads this
    {
      Flat(vec) == queued && total == |queued| && wire == []
    }

    /** All bytes but the last `total` have been sent, and those are what the vector to
        resume from refers to. */
    ghost predicate Tracked()
      reads this
    {
      && 0 <= total <= |queued| && wire == queued[..|queued| - total]
      && (total > 0 ==> Flat(temp) == queued[|queued| - total..])
    }

    /** `http_append_to_output_buf`. */
    method AppendToOutput(s: seq<Byte>)
      requires Unsent()
      modifies this`vec, this`total, this`queued
      ensures Unsent() && queued == old(queued) + s
    {
      FlatAppend(vec, [s]);
      FlatOne(s);
      vec := vec + [s];
      total := total + |s|;
      queued := queued + s;
    }

    /** Queue several buffers. */
    method AppendAll(pieces: IoVec)
      requires Unsent() && queued == []
      modifies this`vec, this`total, this`queued
      ensures Unsent() && queued == Flat(pieces) && total == |queued|
    {
      hide Flat;
      Nothing(pieces);
      for i := 0 to |pieces|
        invariant Unsent() && queued == Flat(pieces[..i])
      {
        FlatSplit(pieces, i);
        AppendToOutput(pieces[i]);
      }
      Whole(pieces);
    }

    static lemma Whole<T>(s: seq<T>)
      ensures s[..|s|] == s
    {
    }

    /** `http_send`; `ev.res` bytes are accepted.  The result says whether the request is over. */
    method Send(ev: Event) returns (over: bool)
      requires Unsent() && -1 <= ev.res <= total && (ev.res == -1 || !ev.hard)
      modifies this`total, this`temp, this`wire
      ensures over <==> ev.hard || ev.res == |queued|
      ensures wire == (if ev.res > 0 then queued[..ev.res] else [])
      ensures !ev.hard ==> total == |queued| - |wire|
      ensures over && !ev.hard ==> Tracked()
      ensures !over && ev.res > 0 ==> Tracked()
      ensures ev.res <= 0 ==> temp == old(temp)
      // Exactly if something was accepted, or by accident, can the rest be resumed.
      ensures !over ==> (Tracked() <==> ev.res > 0 || (total > 0 ==> Flat(old(temp)) == queued))
    {
      hide Flat;
      if ev.res == -1 && ev.hard { return true; }
      if ev.res < total {
        if ev.res > 0 {
          total := total - ev.res;
          temp := Advance(vec, ev.res);
          wire := queued[..ev.res];
        } else {
          assert queued[|queued| - total..] == queued && queued[..|queued| - total] == wire;
        }
        return false;
      }
      total := 0;
      wire := queued;
      return true;
    }

    /** The most that the system can accept. */
    function Offered(): nat
      reads this
    {
      if total > 0 then |Flat(temp)| else Left(file, State())
    }

    /** Bytes of the vector that an event sends. */
    function Sends(ev: Event): nat
      reads this
    {
      if cleaned || total <= 0 || ev.res < 0 then 0 else ev.res
    }

    /** `events_out_data` for the request of the socket.  It sends whatever the vector to
        resume from refers to. */
    method EventsOut(ev: Event)
      requires -1 <= ev.res <= Offered() && (ev.res == -1 || !ev.hard)
      modifies this`total, this`temp, this`wire, this`offset, this`ended, this`cleaned
      ensures old(Sends(ev)) <= |old(Flat(temp))| && Flat(temp) == old(Flat(temp))[old(Sends(ev))..]
      ensures wire == old(wire) + old(Flat(temp))[..old(Sends(ev))]
      ensures State() == Advanced(file, old(State()), ev).(total := old(total) - old(Sends(ev)))
      // A vector that refers to the rest keeps doing so.
      ensures old(Tracked()) ==> Tracked() && State() == Advanced(file, old(State()), ev)
    {
      hide Flat;
      assert Flat(temp)[..0] == [] && Flat(temp)[0..] == Flat(temp);
      if cleaned { return; }
      if total > 0 {
        if ev.res == -1 {
          cleaned := true;
          return;
        }
        Resume(ev.res);
        return;
      }
      if file.Upto? {
        if ev.res > 0 { offset := offset + ev.res; }
        if ev.res == -1 && ev.hard {
          cleaned := true;
          return;
        }
        if offset < file.last { return; }
      }
      ended := true;
      cleaned := true;
    }

    /** Send from the vector and advance it. */
    method Resume(res: nat)
      requires 0 < total && res <= |Flat(temp)|
      modifies this`total, this`temp, this`wire
      ensures total == old(total) - res && Flat(temp) == old(Flat(temp))[res..]
          && wire == old(wire) + old(Flat(temp))[..res]
      ensures old(Tracked()) ==> Tracked()
    {
      hide Flat;
      if Tracked() { Rest(queued, |queued| - total, res); }
      wire := wire + Flat(temp)[..res];
      total := total - res;
      temp := Advance(temp, res);
    }

    static lemma Rest(q: seq<Byte>, at: nat, n: nat)
      requires at + n <= |q|
      ensures q[at..][..n] == q[at..at + n] && q[at..][n..] == q[at + n..] && q[..at] + q[at..at + n] == q[..at + n]
    {
    }

    /** The part of an answer of the system that is possible. */
    static function Possible(ev: Event, most: nat): Event {
      if ev.res < 0 then Event(-1, ev.hard) else Event(Min(ev.res, most), false)
    }

    static lemma Clamped(f: File, p: Progress, ev: Event, most: nat)
      requires most == if p.total > 0 then p.total else Left(f, p)
      ensures Advanced(f, p, Possible(ev, most)) == Advanced(f, p, ev)
    {
    }

    /** Any sequence of events from a vector that refers to the rest. */
    method Drive(events: seq<Event>)
      requires Tracked()
      modifies this`total, this`temp, this`wire, this`offset, this`ended, this`cleaned
      ensures Tracked() && State() == After(file, old(State()), events)
    {
      hide Flat, Advanced, After;
      AfterNone(file, State());
      for n := 0 to |events|
        invariant Tracked() && State() == After(file, old(State()), events[..n])
      {
        assert events[..n + 1] == events[..n] + [events[n]];
        AfterSnoc(file, old(State()), events[..n], events[n]);
        Clamped(file, State(), events[n], Offered());
        EventsOut(Possible(events[n], Offered()));
      }
      assert events[..|events|] == events;
    }

    static lemma AfterNone(f: File, p: Progress)
      ensures After(f, p, []) == p
    {
    }

    /** Any sequence of events from any vector. */
    method DriveStale(events: seq<Event>)
      requires 0 <= total && !ended
      modifies this`total, this`temp, this`wire, this`offset, this`ended, this`cleaned
      ensures old(wire) <= wire <= old(wire) + old(Flat(temp)) && total == old(total) - (|wire| - |old(wire)|)
      ensures ended ==> total <= 0
    {
      hide Flat;
      ghost var all := wire + Flat(temp);
      for n := 0 to |events|
        invariant old(wire) <= wire && wire + Flat(temp) == all && total == old(total) - (|wire| - |old(wire)|)
        invariant ended ==> total <= 0
      {
        EventsOut(Possible(events[n], Offered()));
      }
    }
  }

  /** The whole path of an answer: queue the pieces, send, and serve events. */
  method Respond(stale: IoVec, pieces: IoVec, first: Event, file: File, offset: int, events: seq<Event>)
    returns (r: Response, over: bool)
    ensures r.queued == Flat(pieces) && r.file == file
    // The request is over at once if all was accepted, or on an error.
    ensures over <==> (first.res < 0 && first.hard) || first.res >= |r.queued|
    // Something was accepted: from then on the events do what they should.
    ensures 0 < first.res ==> r.Tracked()
    ensures 0 < first.res < |r.queued| ==>
              r.State() == After(file, Progress(|r.queued| - first.res, offset, false, false), events)
    // Nothing was accepted: only bytes of the stale vector can be sent.
    ensures first.res <= 0 && !over ==> r.wire <= Flat(stale) && r.total == |r.queued| - |r.wire|
    ensures first.res <= 0 && !over && r.ended ==> |r.wire| >= |r.queued|
  {
    hide Flat, After, Response.Tracked, Response.Unsent;
    r := new Response(stale, file, offset);
    r.AppendAll(pieces);
    var e := Response.Possible(first, r.total);
    over := r.Send(e);
    if over { return; }
    assert e.res == first.res || (e.res == -1 && first.res < 0);
    if first.res > 0 {
      r.Drive(events);
    } else {
      r.DriveStale(events);
    }
  }

  /** With an empty stale vector, nothing is ever sent after a first `writev` of 0 bytes. */
  method NothingSent(y: Byte, events: seq<Event>) returns (r: Response)
    ensures r.queued == [y] && r.wire == [] && r.total == 1 && !r.ended
  {
    FlatOne([y]);
    var over;
    r, over := Respond([], [[y]], Event(0, false), NoFile, 0, events);
  }

  /** With another stale vector, its bytes are sent in place of the answer, and the request
      is ended. */
  method StaleSent(x: Byte, y: Byte) returns (r: Response)
    ensures r.queued == [y] && r.wire == [x] && r.ended
  {
    hide Flat, Response.Tracked;
    FlatOne([x]);
    r := new Response([[x]], NoFile, 0);
    assert Flat(r.temp) == [x];
    r.AppendToOutput([y]);
    var over := r.Send(Event(0, false));
    assert r.State() == Progress(1, 0, false, false) && r.wire == [];
    r.EventsOut(Event(1, false));
    assert r.State() == Progress(0, 0, false, false) && r.wire == [x];
    r.EventsOut(Event(0, false));
  }
}
