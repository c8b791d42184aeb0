/** The scroll spy: which elements come into view and leave it, step by step. */
module ScrollSpies {
  type Node = nat

  datatype Event = Enter(node: Node) | Exit(node: Node)

  /** The tick count, the tick each element carries as a number, and the elements found by the last step. */
  datatype Spy = Spy(ticks: nat, data: map<Node, nat>, inView: seq<Node>)

  const FRESH := Spy(0, map[], [])

  function ToSet(nodes: seq<Node>): (r: set<Node>)
    ensures forall n :: n in r <==> n in nodes
  {
    set n | n in nodes
  }

  /** The nodes not known yet, each once, in the order they first occur. */
  function New(nodes: seq<Node>, known: set<Node>): (r: seq<Node>)
    ensures forall n :: n in r <==> n in nodes && n !in known
  {
    if nodes == [] then []
    else if nodes[0] in known then New(nodes[1..], known)
    else [nodes[0]] + New(nodes[1..], known + {nodes[0]})
  }

  function Enters(nodes: seq<Node>): seq<Event> {
    seq(|nodes|, i requires 0 <= i < |nodes| => Enter(nodes[i]))
  }

  function Exits(nodes: seq<Node>): seq<Event> {
    seq(|nodes|, i requires 0 <= i < |nodes| => Exit(nodes[i]))
  }

  /** The events of a step that finds `hits`: the elements that were not in view enter, those no longer in view exit. */
  function EventsOf(s: Spy, hits: seq<Node>): seq<Event> {
    Enters(New(hits, ToSet(s.inView))) + Exits(New(s.inView, ToSet(hits)))
  }

  function Step(s: Spy, hits: seq<Node>): Spy {
    Spy(s.ticks + 1, map n | n in ToSet(hits) :: s.ticks + 1, hits)
  }

  /** An element carries a number exactly when the last step found it, namely the number of that step. */
  ghost predicate Valid(s: Spy) {
    (forall n :: n in s.data <==> n in s.inView) && (forall n :: n in s.data ==> s.data[n] == s.ticks)
  }

  class ScrollSpy {
    var ticks: nat
    var data: map<Node, nat>
    var elementsInView: seq<Node>

    function State(): Spy
      reads this
    {
      Spy(ticks, data, elementsInView)
    }

    constructor ()
      ensures State() == FRESH
    {
      ticks, data, elementsInView := 0, map[], [];
    }

    /**
     One scroll; `intersections` are the elements found in view, an element that was added twice being found twice.
     */
    method OnScroll(intersections: seq<Node>) returns (events: seq<Event>)
      requires Valid(State())
      modifies this
      ensures State() == Step(old(State()), intersections) && Valid(State())
      ensures events == EventsOf(old(State()), intersections)
    {
      hide New;
      ticks := ticks + 1;
      var entered := MarkHits(intersections);
      var exited := SweepView(intersections);
      elementsInView := intersections;
      events := entered + exited;
    }

    /** The first loop: elements without a number enter, all that are found get the number of this tick. */
    method MarkHits(intersections: seq<Node>) returns (events: seq<Event>)
      requires data.Keys == ToSet(elementsInView) && forall n :: n in data ==> data[n] == ticks - 1
      modifies this`data
      ensures data.Keys == ToSet(elementsInView) + ToSet(intersections)
      ensures forall n :: n in data ==> data[n] == if n in intersections then ticks else ticks - 1
      ensures events == Enters(New(intersections, ToSet(elementsInView)))
    {
      hide New;
      ghost var was := ToSet(elementsInView);
      events := [];
      var i := 0;
      NewAll(intersections, was);
      while i < |intersections|
        invariant 0 <= i <= |intersections|
        invariant data.Keys == was + ToSet(intersections[..i])
        invariant forall n :: n in data ==> data[n] == if n in intersections[..i] then ticks else ticks - 1
        invariant events + Enters(New(intersections[i..], data.Keys)) == Enters(New(intersections, was))
      {
        var element := intersections[i];
        ghost var known := data.Keys;
        EntersStep(intersections, i, known, events);
        assert intersections[..i + 1] == intersections[..i] + [element];
        if element !in data {
          events := events + [Enter(element)];
        }
        data := data[element := ticks];
        assert data.Keys == known + {element};
        i := i + 1;
      }
      assert intersections[..i] == intersections;
      NewEnd(intersections, data.Keys);
    }

    /** The second loop: elements found by the last step and not by this one exit and lose their number. */
    method SweepView(ghost intersections: seq<Node>) returns (events: seq<Event>)
      requires data.Keys == ToSet(elementsInView) + ToSet(intersections)
      requires forall n :: n in data ==> data[n] == if n in intersections then ticks else ticks - 1
      modifies this`data
      ensures data == map n | n in ToSet(intersections) :: ticks
      ensures events == Exits(New(elementsInView, ToSet(intersections)))
    {
      hide New;
      ghost var hits := ToSet(intersections);
      var view := elementsInView;
      events := [];
      var i := 0;
      NewAll(view, hits);
      while i < |view|
        invariant 0 <= i <= |view|
        invariant forall n :: n in data <==> n in hits || (n in view && n !in view[..i])
        invariant forall n :: n in data ==> data[n] == if n in intersections then ticks else ticks - 1
        invariant events + Exits(New(view[i..], hits + ToSet(view[..i]))) == Exits(New(view, hits))
      {
        var element := view[i];
        ExitsStep(view, i, hits + ToSet(view[..i]), events);
        assert view[..i + 1] == view[..i] + [element];
        assert hits + ToSet(view[..i]) + {element} == hits + ToSet(view[..i + 1]);
        if element in data && data[element] != ticks {
          events := events + [Exit(element)];
          data := data - {element};
        }
        i := i + 1;
      }
      assert view[..i] == view;
      NewEnd(view, hits + ToSet(view));
    }
  }

  lemma NewAll(nodes: seq<Node>, known: set<Node>)
    ensures New(nodes[0..], known) == New(nodes, known) && nodes[..0] == []
    ensures known + ToSet(nodes[..0]) == known
  {
    assert nodes[0..] == nodes;
  }

  lemma NewEnd(nodes: seq<Node>, known: set<Node>)
    ensures New(nodes[|nodes|..], known) == []
  {
  }

  lemma NewStep(nodes: seq<Node>, i: nat, known: set<Node>)
    requires i < |nodes|
    ensures New(nodes[i..], known)
      == (if nodes[i] in known then [] else [nodes[i]]) + New(nodes[i + 1..], known + {nodes[i]})
  {
    assert nodes[i..][1..] == nodes[i + 1..];
    if nodes[i] in known {
      assert known + {nodes[i]} == known;
    }
  }

  lemma EntersStep(nodes: seq<Node>, i: nat, known: set<Node>, events: seq<Event>)
    requires i < |nodes|
    ensures var rest := Enters(New(nodes[i + 1..], known + {nodes[i]}));
      events + Enters(New(nodes[i..], known))
        == (if nodes[i] in known then events else events + [Enter(nodes[i])]) + rest
  {
    hide New;
    NewStep(nodes, i, known);
  }

  lemma ExitsStep(nodes: seq<Node>, i: nat, known: set<Node>, events: seq<Event>)
    requires i < |nodes|
    ensures var rest := Exits(New(nodes[i + 1..], known + {nodes[i]}));
      events + Exits(New(nodes[i..], known)) == (if nodes[i] in known then events else events + [Exit(nodes[i])]) + rest
  {
    hide New;
    NewStep(nodes, i, known);
  }

  // Runs

  function Run(steps: seq<seq<Node>>): Spy {
    if steps == [] then FRESH else Step(Run(steps[..|steps| - 1]), steps[|steps| - 1])
  }

  /** All events of a run, in turn. */
  function Log(steps: seq<seq<Node>>): seq<Event> {
    if steps == [] then []
    else Log(steps[..|steps| - 1]) + EventsOf(Run(steps[..|steps| - 1]), steps[|steps| - 1])
  }

  /** The events of one element. */
  function Of(log: seq<Event>, n: Node): seq<Event> {
    if log == [] then [] else (if log[0].node == n then [log[0]] else []) + Of(log[1..], n)
  }

  predicate Alternates(events: seq<Event>, n: Node) {
    forall i :: 0 <= i < |events| ==> events[i] == if i % 2 == 0 then Enter(n) else Exit(n)
  }

  lemma OfHead(log: seq<Event>, n: Node)
    requires log != []
    ensures Of(log, n) == (if log[0].node == n then [log[0]] else []) + Of(log[1..], n)
  {
  }

  lemma {:induction false} OfJoin(a: seq<Event>, b: seq<Event>, n: Node)
    ensures Of(a + b, n) == Of(a, n) + Of(b, n)
  {
    hide Of;
    if a == [] {
      OfNone(n);
      assert a + b == b;
    } else {
      OfJoin(a[1..], b, n);
      OfHead(a, n);
      assert (a + b)[1..] == a[1..] + b;
      OfHead(a + b, n);
    }
  }

  lemma OfNone(n: Node)
    ensures Of([], n) == []
  {
  }

  lemma OfCons(x: Node, rest: seq<Node>, n: Node)
    ensures Of(Enters([x] + rest), n) == (if x == n then [Enter(n)] else []) + Of(Enters(rest), n)
    ensures Of(Exits([x] + rest), n) == (if x == n then [Exit(n)] else []) + Of(Exits(rest), n)
  {
    hide Of;
    assert Enters([x] + rest)[1..] == Enters(rest);
    assert Exits([x] + rest)[1..] == Exits(rest);
    OfHead(Enters([x] + rest), n);
    OfHead(Exits([x] + rest), n);
  }

  lemma {:induction false} OfNew(nodes: seq<Node>, known: set<Node>, n: Node)
    ensures Of(Enters(New(nodes, known)), n) == if n in nodes && n !in known then [Enter(n)] else []
    ensures Of(Exits(New(nodes, known)), n) == if n in nodes && n !in known then [Exit(n)] else []
  {
    hide Of, New;
    if nodes == [] {
      OfNone(n);
      NewEnd(nodes, known);
      assert nodes[|nodes|..] == nodes;
      assert Enters([]) == [] && Exits([]) == [];
    } else {
      var rest := New(nodes[1..], known + {nodes[0]});
      OfNew(nodes[1..], known + {nodes[0]}, n);
      assert nodes[0..] == nodes;
      NewStep(nodes, 0, known);
      if nodes[0] in known {
        assert [] + rest == rest;
      } else {
        OfCons(nodes[0], rest, n);
      }
    }
  }

  /**
   In a step an element enters when it is found and was not in view, exits in the converse case, and each at most
   once.
   */
  lemma StepOfNode(s: Spy, hits: seq<Node>, n: Node)
    ensures Of(EventsOf(s, hits), n) ==
      if n in hits && n !in s.inView then [Enter(n)] else if n in s.inView && n !in hits then [Exit(n)] else []
  {
    hide New, Of;
    OfJoin(Enters(New(hits, ToSet(s.inView))), Exits(New(s.inView, ToSet(hits))), n);
    OfNew(hits, ToSet(s.inView), n);
    OfNew(s.inView, ToSet(hits), n);
  }

  lemma {:induction false} RunIsValid(steps: seq<seq<Node>>)
    ensures Valid(Run(steps)) && Run(steps).ticks == |steps|
    ensures Run(steps).inView == if steps == [] then [] else steps[|steps| - 1]
  {
    if steps != [] {
      RunIsValid(steps[..|steps| - 1]);
    }
  }

  /** An element is in view exactly when the last step found it, which is when it carries the number of that step. */
  lemma CarriesLastStep(steps: seq<seq<Node>>, n: Node)
    ensures n in Run(steps).inView <==> steps != [] && n in steps[|steps| - 1]
    ensures n in Run(steps).data <==> n in Run(steps).inView
    ensures n in Run(steps).data ==> Run(steps).data[n] == |steps|
  {
    hide Run;
    RunIsValid(steps);
  }

  lemma LogOfStep(steps: seq<seq<Node>>, n: Node)
    requires steps != []
    ensures var earlier := steps[..|steps| - 1];
      Of(Log(steps), n) == Of(Log(earlier), n) + Of(EventsOf(Run(earlier), steps[|steps| - 1]), n)
  {
    hide EventsOf, Of;
    OfJoin(Log(steps[..|steps| - 1]), EventsOf(Run(steps[..|steps| - 1]), steps[|steps| - 1]), n);
  }

  lemma AlternatesAppend(events: seq<Event>, event: Event, n: Node)
    requires Alternates(events, n) && event == if |events| % 2 == 0 then Enter(n) else Exit(n)
    ensures Alternates(events + [event], n) && |events + [event]| % 2 != |events| % 2
  {
  }

  /**
   Over every run of steps, whatever they find, the events of an element are enter, exit, enter and so on; the last one
   is an enter exactly when the element is in view, which is when it carries a number, that of the last step.
   */
  lemma {:induction false} EventsAlternate(steps: seq<seq<Node>>, n: Node)
    ensures Alternates(Of(Log(steps), n), n)
    ensures |Of(Log(steps), n)| % 2 == 1 <==> n in Run(steps).inView
    ensures n in Run(steps).inView <==> n in Run(steps).data
    ensures n in Run(steps).data ==> Run(steps).data[n] == |steps|
  {
    CarriesLastStep(steps, n);
    if steps != [] {
      var earlier, hits := steps[..|steps| - 1], steps[|steps| - 1];
      EventsAlternate(earlier, n);
      hide *;
      LogOfStep(steps, n);
      StepOfNode(Run(earlier), hits, n);
      CarriesLastStep(earlier, n);
      if n in hits && n !in Run(earlier).inView {
        AlternatesAppend(Of(Log(earlier), n), Enter(n), n);
      } else if n in Run(earlier).inView && n !in hits {
        AlternatesAppend(Of(Log(earlier), n), Exit(n), n);
      } else {
        assert Of(Log(steps), n) == Of(Log(earlier), n);
      }
    }
  }
}
