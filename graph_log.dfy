/**
 * The relationships of a normative graph as the ordered log of the
 * `add_relationship` calls that created them, and the views of that log which
 * the graph keeps in its adjacency dictionaries.
 */
module GraphLog {
  import opened Wrappers
  import opened Sequences

  /**
   * One `add_relationship(source, target, kind)` call. The source is optional
   * because a record without `id_norma` still contributes edges, from `None`.
   */
  datatype Relationship = Relationship(source: Option<string>, target: string, kind: string)

  /** The `(target, kind)` pairs leaving `s`, in the order they were added. */
  function Outgoing(log: seq<Relationship>, s: Option<string>): seq<(string, string)>
  {
    if log == [] then []
    else
      var r := Last(log);
      Outgoing(Init(log), s) + (if r.source == s then [(r.target, r.kind)] else [])
  }

  /** The `(source, kind)` pairs entering `t`, in the order they were added. */
  function Incoming(log: seq<Relationship>, t: string): seq<(Option<string>, string)>
  {
    if log == [] then []
    else
      var r := Last(log);
      Incoming(Init(log), t) + (if r.target == t then [(r.source, r.kind)] else [])
  }

  /** Every source, once, in the order of its first relationship: the key order of `edges`. */
  function SourceOrder(log: seq<Relationship>): seq<Option<string>>
  {
    if log == [] then []
    else
      var order := SourceOrder(Init(log));
      if Last(log).source in order then order else order + [Last(log).source]
  }

  /** Every target of a relationship: the keys of `reverse_edges`. */
  function TargetSet(log: seq<Relationship>): set<string>
  {
    if log == [] then {} else TargetSet(Init(log)) + {Last(log).target}
  }

  /** The forward adjacency dictionary that the log determines. */
  function ForwardIndex(log: seq<Relationship>): map<Option<string>, seq<(string, string)>>
  {
    map s | s in SourceOrder(log) :: Outgoing(log, s)
  }

  /** The reverse adjacency dictionary that the log determines. */
  function ReverseIndex(log: seq<Relationship>): map<string, seq<(Option<string>, string)>>
  {
    map t | t in TargetSet(log) :: Incoming(log, t)
  }

  /** How many times `r` was added. */
  function Occurrences(log: seq<Relationship>, r: Relationship): nat
  {
    multiset(log)[r]
  }

  lemma LogSplit(log: seq<Relationship>)
    requires log != []
    ensures log == Init(log) + [Last(log)]
  {
  }

  lemma AppendInit(log: seq<Relationship>, r: Relationship)
    ensures Init(log + [r]) == log && Last(log + [r]) == r
  {
    assert (log + [r])[..|log|] == log;
  }

  /** A source appears in `SourceOrder` exactly when it has a relationship; the order has no repeats. */
  lemma {:induction false} SourceOrderMembers(log: seq<Relationship>)
    ensures Distinct(SourceOrder(log))
    ensures forall s :: s in SourceOrder(log) <==> exists r :: r in log && r.source == s
  {
    if log != [] {
      SourceOrderMembers(Init(log));
      LogSplit(log);
      forall s ensures s in SourceOrder(log) <==> exists r :: r in log && r.source == s {
        if s == Last(log).source {
          assert Last(log) in log;
        } else {
          if exists r :: r in log && r.source == s {
            var r :| r in log && r.source == s;
            assert r in Init(log);
          }
        }
      }
    }
  }

  lemma {:induction false} TargetSetMembers(log: seq<Relationship>)
    ensures forall t :: t in TargetSet(log) <==> exists r :: r in log && r.target == t
  {
    if log != [] {
      TargetSetMembers(Init(log));
      LogSplit(log);
      forall t ensures t in TargetSet(log) <==> exists r :: r in log && r.target == t {
        if t == Last(log).target {
          assert Last(log) in log;
        } else if exists r :: r in log && r.target == t {
          var r :| r in log && r.target == t;
          assert r in Init(log);
        }
      }
    }
  }

  /** `(t, k)` leaves `s` exactly as often as the relationship `(s, t, k)` was added. */
  lemma {:induction false} OutgoingCounts(log: seq<Relationship>, s: Option<string>, t: string, k: string)
    ensures multiset(Outgoing(log, s))[(t, k)] == Occurrences(log, Relationship(s, t, k))
  {
    if log != [] {
      OutgoingCounts(Init(log), s, t, k);
      LogSplit(log);
    }
  }

  /** `(s, k)` enters `t` exactly as often as the relationship `(s, t, k)` was added. */
  lemma {:induction false} IncomingCounts(log: seq<Relationship>, s: Option<string>, t: string, k: string)
    ensures multiset(Incoming(log, t))[(s, k)] == Occurrences(log, Relationship(s, t, k))
  {
    if log != [] {
      IncomingCounts(Init(log), s, t, k);
      LogSplit(log);
    }
  }

  /**
   * Forward/reverse mirroring: `(t, k)` occurs in the forward list of `s` exactly
   * as often as `(s, k)` occurs in the reverse list of `t`.
   */
  lemma Mirrored(log: seq<Relationship>, s: Option<string>, t: string, k: string)
    ensures multiset(Outgoing(log, s))[(t, k)] == multiset(Incoming(log, t))[(s, k)]
    ensures (t, k) in Outgoing(log, s) <==> (s, k) in Incoming(log, t)
  {
    OutgoingCounts(log, s, t, k);
    IncomingCounts(log, s, t, k);
    assert (t, k) in Outgoing(log, s) <==> (t, k) in multiset(Outgoing(log, s));
    assert (s, k) in Incoming(log, t) <==> (s, k) in multiset(Incoming(log, t));
  }

  /** A source without relationships has an empty forward list. */
  lemma {:induction false} OutgoingOfUnknown(log: seq<Relationship>, s: Option<string>)
    requires s !in SourceOrder(log)
    ensures Outgoing(log, s) == []
  {
    if log != [] {
      OutgoingOfUnknown(Init(log), s);
    }
  }

  /** An id that is no relationship's target has an empty reverse list. */
  lemma {:induction false} IncomingOfUnknown(log: seq<Relationship>, t: string)
    requires t !in TargetSet(log)
    ensures Incoming(log, t) == []
  {
    if log != [] {
      IncomingOfUnknown(Init(log), t);
    }
  }

  /** Adding one relationship changes the indexes at its source and its target only, by appending. */
  lemma IndexesAfterAppend(log: seq<Relationship>, r: Relationship)
    ensures SourceOrder(log + [r]) == if r.source in SourceOrder(log) then SourceOrder(log) else SourceOrder(log) + [r.source]
    ensures forall s :: Outgoing(log + [r], s) == Outgoing(log, s) + (if s == r.source then [(r.target, r.kind)] else [])
    ensures forall t :: Incoming(log + [r], t) == Incoming(log, t) + (if t == r.target then [(r.source, r.kind)] else [])
    ensures TargetSet(log + [r]) == TargetSet(log) + {r.target}
  {
    AppendInit(log, r);
  }

  lemma OutgoingAfterAppend(log: seq<Relationship>, r: Relationship, s: Option<string>)
    ensures Outgoing(log + [r], s) == Outgoing(log, s) + (if s == r.source then [(r.target, r.kind)] else [])
  {
    AppendInit(log, r);
  }

  lemma ForwardIndexAppend(log: seq<Relationship>, r: Relationship)
    ensures ForwardIndex(log + [r]) == ForwardIndex(log)[r.source := Outgoing(log, r.source) + [(r.target, r.kind)]]
  {
    IndexesAfterAppend(log, r);
    var after := ForwardIndex(log + [r]);
    var expected := ForwardIndex(log)[r.source := Outgoing(log, r.source) + [(r.target, r.kind)]];
    assert after.Keys == expected.Keys;
    forall s | s in after ensures after[s] == expected[s] {
    }
  }

  lemma ReverseIndexAppend(log: seq<Relationship>, r: Relationship)
    ensures ReverseIndex(log + [r]) == ReverseIndex(log)[r.target := Incoming(log, r.target) + [(r.source, r.kind)]]
  {
    IndexesAfterAppend(log, r);
    var after := ReverseIndex(log + [r]);
    var expected := ReverseIndex(log)[r.target := Incoming(log, r.target) + [(r.source, r.kind)]];
    assert after.Keys == expected.Keys;
    forall t | t in after ensures after[t] == expected[t] {
    }
  }
}
