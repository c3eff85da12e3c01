/** The stop-mark matcher: per serial port, how much of a mark the port's own output
    has just completed, kept without remembering the output. */
module StopMark {
  import opened Basics

  /** The first `k` characters of the mark end the stream `s`. */
  predicate Ends(mark: seq<byte>, k: nat, s: seq<byte>) {
    k <= |mark| && k <= |s| && mark[..k] == s[|s| - k..]
  }

  /** The longest prefix of the mark, of length at most `k`, that ends the stream. */
  function LongestUpTo(mark: seq<byte>, s: seq<byte>, k: nat): (r: nat)
    requires k <= |mark|
    ensures r <= k && Ends(mark, r, s) && forall j :: r < j <= k ==> !Ends(mark, j, s)
  {
    if k == 0 || Ends(mark, k, s) then k else LongestUpTo(mark, s, k - 1)
  }

  function Longest(mark: seq<byte>, s: seq<byte>): (r: nat)
    ensures r <= |mark|
  {
    LongestUpTo(mark, s, |mark|)
  }

  lemma LongestIs(mark: seq<byte>, s: seq<byte>, k: nat)
    requires Ends(mark, k, s) && forall j :: k < j <= |mark| ==> !Ends(mark, j, s)
    ensures Longest(mark, s) == k
  {
  }

  /** One more character: a prefix ends the longer stream when its last character is
      the new one and the rest ended the shorter stream. */
  lemma EndsSnoc(mark: seq<byte>, k: nat, s: seq<byte>, v: byte)
    requires 0 < k <= |mark|
    ensures Ends(mark, k, s + [v]) <==> mark[k - 1] == v && Ends(mark, k - 1, s)
  {
    var t := s + [v];
    if k <= |t| {
      assert mark[..k] == mark[..k - 1] + [mark[k - 1]];
      assert t[|t| - k..] == s[|s| - (k - 1)..] + [v];
    }
  }

  /** Below a matched prefix, what ends the stream is what ends that prefix. */
  lemma EndsWithin(mark: seq<byte>, p: nat, j: nat, s: seq<byte>)
    requires Ends(mark, p, s) && j <= p
    ensures Ends(mark, j, s) <==> Ends(mark, j, mark[..p])
  {
    assert mark[..p][p - j..] == s[|s| - p..][p - j..] == s[|s| - j..];
  }

  /** The length matched after one more character depends on the stream only through
      the length matched before. */
  lemma OnlyPositionMatters(mark: seq<byte>, s: seq<byte>, v: byte)
    requires Longest(mark, s) < |mark|
    ensures Longest(mark, s + [v]) == Longest(mark, mark[..Longest(mark, s)] + [v])
  {
    var p := Longest(mark, s);
    hide Ends;
    forall k | 0 < k <= |mark|
      ensures Ends(mark, k, s + [v]) <==> Ends(mark, k, mark[..p] + [v])
    {
      EndsSnoc(mark, k, s, v);
      EndsSnoc(mark, k, mark[..p], v);
      if k - 1 <= p { EndsWithin(mark, p, k - 1, s); } else { TooLong(mark, k - 1, mark[..p]); }
    }
    SameLongest(mark, s + [v], mark[..p] + [v]);
  }

  lemma TooLong(mark: seq<byte>, k: nat, s: seq<byte>)
    requires k > |s|
    ensures !Ends(mark, k, s)
  {
  }

  lemma SameLongest(mark: seq<byte>, s: seq<byte>, t: seq<byte>)
    requires forall k :: 0 < k <= |mark| ==> (Ends(mark, k, s) <==> Ends(mark, k, t))
    ensures Longest(mark, s) == Longest(mark, t)
  {
    var r := Longest(mark, s);
    LongestIs(mark, t, r);
  }

  /** One character: on a mismatch fall back to the longest prefix of the mark that is
      also a suffix of what has matched, and try again. */
  method MarkAdvance(mark: seq<byte>, start: nat, v: byte) returns (r: nat)
    requires start < |mark|
    ensures r == Longest(mark, mark[..start] + [v])
  {
    var pos: nat := start;
    ghost var s := mark[..start];
    while true
      invariant pos < |mark| && Ends(mark, pos, s)
      invariant forall j :: pos < j < |mark| && Ends(mark, j, s) ==> mark[j] != v
      decreases pos
    {
      if mark[pos] == v {
        Settled(mark, s, pos + 1, v);
        return pos + 1;
      }
      if pos == 0 {
        Settled(mark, s, 0, v);
        return 0;
      }
      var k := Fallback(mark, pos);
      FellBack(mark, s, pos, k);
      pos := k;
    }
  }

  /** The longest proper border of the matched part. */
  method Fallback(mark: seq<byte>, pos: nat) returns (k: nat)
    requires 0 < pos < |mark|
    ensures k < pos && (k > 0 ==> mark[..k] == mark[pos - k..pos])
    ensures forall j :: k < j < pos ==> mark[..j] != mark[pos - j..pos]
  {
    k := pos - 1;
    while k > 0 && mark[..k] != mark[pos - k..pos]
      invariant k < pos
      invariant forall j :: k < j < pos ==> mark[..j] != mark[pos - j..pos]
    {
      k := k - 1;
    }
  }

  /** The candidate found is the answer: everything longer has been ruled out. */
  lemma Settled(mark: seq<byte>, s: seq<byte>, r: nat, v: byte)
    requires r <= |mark| && (r > 0 ==> mark[r - 1] == v && Ends(mark, r - 1, s))
    requires forall j :: r <= j < |mark| && Ends(mark, j, s) ==> mark[j] != v
    ensures Longest(mark, s + [v]) == r
  {
    if r > 0 { EndsSnoc(mark, r, s, v); }
    forall k | r < k <= |mark|
      ensures !Ends(mark, k, s + [v])
    {
      EndsSnoc(mark, k, s, v);
    }
    LongestIs(mark, s + [v], r);
  }

  /** The fallback is the next longest prefix that still ends the stream. */
  lemma FellBack(mark: seq<byte>, s: seq<byte>, pos: nat, k: nat)
    requires pos < |mark| && k < pos && Ends(mark, pos, s)
    requires k > 0 ==> mark[..k] == mark[pos - k..pos]
    requires forall j :: k < j < pos ==> mark[..j] != mark[pos - j..pos]
    ensures Ends(mark, k, s) && forall j :: k < j < pos ==> !Ends(mark, j, s)
  {
    forall j | k <= j < pos
      ensures Ends(mark, j, s) <==> mark[..j] == mark[pos - j..pos]
    {
      EndsWithin(mark, pos, j, s);
      assert mark[..pos][pos - j..] == mark[pos - j..pos];
    }
  }

  // ----- several ports -------------------------------------------------------------

  /** A character transmitted on a port. */
  datatype Event = Event(port: nat, v: byte)

  datatype Watch = Watch(pos: seq<nat>, stop: bool)

  function Start(ports: nat): Watch {
    Watch(seq(ports, _ => 0), false)
  }

  /** Each port has its own position; a complete mark ends the run. */
  function Step(mark: seq<byte>, w: Watch, e: Event): Watch {
    if w.stop || e.port >= |w.pos| || w.pos[e.port] >= |mark| then w else
    var p := Longest(mark, mark[..w.pos[e.port]] + [e.v]);
    Watch(w.pos[e.port := p], p == |mark|)
  }

  function Run(mark: seq<byte>, ports: nat, es: seq<Event>): Watch {
    if es == [] then Start(ports) else Step(mark, Run(mark, ports, es[..|es| - 1]), es[|es| - 1])
  }

  /** What one port has transmitted. */
  function Output(es: seq<Event>, port: nat): seq<byte> {
    if es == [] then []
    else Output(es[..|es| - 1], port) + if es[|es| - 1].port == port then [es[|es| - 1].v] else []
  }

  /** The last event completed the mark on its own port. */
  ghost predicate Completes(mark: seq<byte>, es: seq<Event>) {
    es != [] && Ends(mark, |mark|, Output(es, es[|es| - 1].port))
  }

  ghost predicate ValidPorts(es: seq<Event>, ports: nat) {
    forall i :: 0 <= i < |es| ==> es[i].port < ports
  }

  /** For every mark, stream and interleaving of ports: the run is stopped as soon as
      some port's own output ends with the whole mark, and not before; until then
      each port's position is the longest prefix of the mark its own output ends with. */
  lemma {:induction false} RunExact(mark: seq<byte>, ports: nat, es: seq<Event>)
    requires mark != [] && ValidPorts(es, ports)
    ensures var w := Run(mark, ports, es);
      && |w.pos| == ports
      && (w.stop <==> exists i :: 0 < i <= |es| && Completes(mark, es[..i]))
      && (!w.stop ==> forall p :: 0 <= p < ports ==> w.pos[p] == Longest(mark, Output(es, p)) < |mark|)
    decreases |es|
  {
    hide Completes, Ends, Longest;
    if es == [] {
      NothingPrinted(mark);
    } else {
      var ds, e := es[..|es| - 1], es[|es| - 1];
      RunExact(mark, ports, ds);
      CompletesLater(mark, es);
      var w := Run(mark, ports, ds);
      if !w.stop {
        OnlyPositionMatters(mark, Output(ds, e.port), e.v);
        WholeMark(mark, es);
        forall p | 0 <= p < ports
          ensures Output(es, p) == if p == e.port then Output(ds, p) + [e.v] else Output(ds, p)
        {
        }
      }
    }
  }

  /** Completions so far: those of the shorter run, and possibly the last event. */
  lemma CompletesLater(mark: seq<byte>, es: seq<Event>)
    requires es != []
    ensures var ds := es[..|es| - 1];
      (exists i :: 0 < i <= |es| && Completes(mark, es[..i]))
        <==> (exists i :: 0 < i <= |ds| && Completes(mark, ds[..i])) || Completes(mark, es)
  {
    hide Completes;
    var ds := es[..|es| - 1];
    assert es[..|es|] == es;
    forall i | 0 < i <= |ds| ensures ds[..i] == es[..i] {}
    if i :| 0 < i <= |es| && Completes(mark, es[..i]) {
      if i < |es| { assert Completes(mark, ds[..i]); }
    }
    if i :| 0 < i <= |ds| && Completes(mark, ds[..i]) {
      assert Completes(mark, es[..i]);
    }
  }

  lemma NothingPrinted(mark: seq<byte>)
    requires mark != []
    ensures Longest(mark, []) == 0
  {
    LongestIs(mark, [], 0);
  }

  lemma WholeMark(mark: seq<byte>, es: seq<Event>)
    requires es != []
    ensures Longest(mark, Output(es, es[|es| - 1].port)) == |mark| <==> Completes(mark, es)
  {
  }

  /** The run stops on exactly the first character that completes the mark. */
  lemma StopsAtFirst(mark: seq<byte>, ports: nat, es: seq<Event>)
    requires mark != [] && ValidPorts(es, ports) && es != []
    ensures Run(mark, ports, es).stop && !Run(mark, ports, es[..|es| - 1]).stop
       <==> Completes(mark, es) && forall i :: 0 < i < |es| ==> !Completes(mark, es[..i])
  {
    hide Completes, Run;
    var ds := es[..|es| - 1];
    RunExact(mark, ports, es);
    RunExact(mark, ports, ds);
    CompletesLater(mark, es);
    forall i | 0 < i < |es|
      ensures ds[..i] == es[..i]
    {
    }
  }

  // ----- the watcher object ------------------------------------------------------------

  class StopWatcher {
    const mark: seq<byte>
    const pos: array<nat>
    var stop: bool

    constructor (mark: seq<byte>, ports: nat)
      requires mark != []
      ensures this.mark == mark && fresh(pos) && State() == Start(ports)
    {
      this.mark := mark;
      pos := new nat[ports](_ => 0);
      stop := false;
      new;
      assert pos[..] == seq(ports, _ => 0);
    }

    function State(): Watch
      reads this, pos
    {
      Watch(pos[..], stop)
    }

    /** One transmitted character; nothing is watched once the run has been stopped. */
    method Transmit(port: nat, v: byte)
      requires !stop && port < pos.Length && pos[port] < |mark|
      modifies this`stop, pos
      ensures State() == Step(mark, old(State()), Event(port, v))
    {
      pos[port] := MarkAdvance(mark, pos[port], v);
      if pos[port] == |mark| {
        stop := true;
      }
    }
  }
}
