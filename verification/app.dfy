/**
 * The application shell: the start-up dependency check, the responsive
 * breakpoints that pick the body's layout class, and the bounded log of user
 * interactions. The browser globals, the clock and the page URL become
 * parameters.
 */
module App {
  import opened Wrappers
  import Text

  /** The log keeps at most this many entries. */
  const MaxEntries := 100

  /** The two breakpoints, in CSS pixels. */
  const MobileBelow := 768
  const TabletBelow := 1024

  const MobileClass := "mobile-layout"
  const TabletClass := "tablet-layout"

  // ---------------------------------------------------------------------
  // Dependency check

  /** A required global and whether the page defines it. */
  datatype Dependency = Dependency(name: string, present: bool)

  /** The four globals the application needs, in the order they are checked. */
  function Required(d3: bool, swal: bool, data: bool, helper: bool): (r: seq<Dependency>)
    ensures |r| == 4
    ensures r[0].name == "D3.js" && r[1].name == "SweetAlert"
    ensures r[2].name == "Equivalence Data" && r[3].name == "Helper Classes"
    ensures r[0].present == d3 && r[1].present == swal && r[2].present == data && r[3].present == helper
  {
    [ Dependency("D3.js", d3), Dependency("SweetAlert", swal),
      Dependency("Equivalence Data", data), Dependency("Helper Classes", helper) ]
  }

  /** The names of the failing dependencies, in declaration order. */
  function Missing(deps: seq<Dependency>): (r: seq<string>)
    ensures |r| <= |deps|
    ensures r == [] <==> forall i :: 0 <= i < |deps| ==> deps[i].present
    ensures forall x :: x in r <==> exists i :: 0 <= i < |deps| && !deps[i].present && deps[i].name == x
  {
    if deps == [] then []
    else
      var init := deps[..|deps| - 1];
      var last := deps[|deps| - 1];
      assert forall i :: 0 <= i < |init| ==> init[i] == deps[i];
      Missing(init) + (if last.present then [] else [last.name])
  }

  /** Filtering distributes over concatenation: the failing names of a longer
      list are those of its first part followed by those of its second part,
      so the names keep the order in which the dependencies were declared. */
  lemma {:induction false} MissingOfAppend(a: seq<Dependency>, b: seq<Dependency>)
    ensures Missing(a + b) == Missing(a) + Missing(b)
    decreases |b|
  {
    if b == [] {
      assert a + b == a;
    } else {
      var b0 := b[..|b| - 1];
      var last := b[|b| - 1];
      var tail := if last.present then [] else [last.name];
      assert (a + b)[..|a + b| - 1] == a + b0;
      assert (a + b)[|a + b| - 1] == last;
      assert Missing(a + b) == Missing(a + b0) + tail;
      MissingOfAppend(a, b0);
      assert Missing(b) == Missing(b0) + tail;
    }
  }

  /** The thrown error's message, or None when every dependency is present. */
  function CheckDependencies(deps: seq<Dependency>): (r: Option<string>)
    ensures r.None? <==> forall i :: 0 <= i < |deps| ==> deps[i].present
    ensures r.Some? ==> r.value == "Missing dependencies: " + Text.Join(Missing(deps), ", ")
  {
    var missing := Missing(deps);
    if |missing| > 0 then Some("Missing dependencies: " + Text.Join(missing, ", ")) else None
  }

  /** The failing names of a list that starts with `d`. */
  lemma MissingCons(d: Dependency, rest: seq<Dependency>)
    ensures Missing([d] + rest) == (if d.present then [] else [d.name]) + Missing(rest)
  {
    assert [d][..0] == [];
    MissingOfAppend([d], rest);
  }

  /** With every global defined, start-up goes ahead. */
  lemma AllPresentPasses()
    ensures CheckDependencies(Required(true, true, true, true)) == None
  {
  }

  /** A single missing global is named on its own. */
  lemma OneMissingNamed()
    ensures CheckDependencies(Required(true, false, true, true)) == Some("Missing dependencies: " + "SweetAlert")
  {
    var one := Required(true, false, true, true);
    assert one == [one[0]] + ([one[1]] + ([one[2]] + [one[3]]));
    MissingCons(one[2], [one[3]]);
    MissingCons(one[1], [one[2]] + [one[3]]);
    MissingCons(one[0], [one[1]] + ([one[2]] + [one[3]]));
    assert Missing(one) == ["SweetAlert"];
    assert Text.Join(["SweetAlert"], ", ") == "SweetAlert";
  }

  /** Two missing globals are listed in declaration order, separated by a comma. */
  lemma TwoMissingInOrder()
    ensures (CheckDependencies(Required(false, true, true, false))
             == Some("Missing dependencies: " + ("D3.js" + ", " + "Helper Classes")))
  {
    var two := Required(false, true, true, false);
    assert two == [two[0]] + ([two[1]] + ([two[2]] + [two[3]]));
    MissingCons(two[2], [two[3]]);
    MissingCons(two[1], [two[2]] + [two[3]]);
    MissingCons(two[0], [two[1]] + ([two[2]] + [two[3]]));
    assert Missing(two) == ["D3.js", "Helper Classes"];
    assert ["D3.js", "Helper Classes"][1..] == ["Helper Classes"];
    assert Text.Join(["D3.js", "Helper Classes"], ", ") == "D3.js" + ", " + "Helper Classes";
  }

  // ---------------------------------------------------------------------
  // Responsive layout

  /** The layout classes the body should carry at a viewport width. */
  function LayoutClasses(width: int): (r: set<string>)
    ensures MobileClass in r <==> width < MobileBelow
    ensures TabletClass in r <==> MobileBelow <= width < TabletBelow
    ensures r <= {MobileClass, TabletClass}
  {
    (if width < MobileBelow then {MobileClass} else {})
    + (if MobileBelow <= width < TabletBelow then {TabletClass} else {})
  }

  /** Every width gets at most one layout class, and none from the second breakpoint on. */
  lemma AtMostOneLayout(width: int)
    ensures |LayoutClasses(width)| <= 1
    ensures width >= TabletBelow <==> LayoutClasses(width) == {}
  {
    assert MobileClass != TabletClass;
    if width < MobileBelow {
      assert LayoutClasses(width) == {MobileClass};
    } else if width < TabletBelow {
      assert LayoutClasses(width) == {TabletClass};
    } else {
      assert LayoutClasses(width) == {};
    }
  }

  /** The body's classes after a layout update at `width`: the two layout
      classes follow the width and every other class is kept. */
  function Relayout(classes: set<string>, width: int): (r: set<string>)
    ensures r * {MobileClass, TabletClass} == LayoutClasses(width)
    ensures r - {MobileClass, TabletClass} == classes - {MobileClass, TabletClass}
  {
    (classes - {MobileClass, TabletClass}) + LayoutClasses(width)
  }

  /** After a run of resizes only the last width matters. */
  lemma LastResizeWins(classes: set<string>, w1: int, w2: int)
    ensures Relayout(Relayout(classes, w1), w2) == Relayout(classes, w2)
  {
    var once := Relayout(classes, w1);
    assert once - {MobileClass, TabletClass} == classes - {MobileClass, TabletClass};
  }

  // ---------------------------------------------------------------------
  // Interaction log

  /** One logged interaction; `data` is the payload object's fields by name. */
  datatype Entry = Entry(kind: string, data: map<string, string>, timestamp: int, url: string)

  /** The last `MaxEntries` elements of `s`, or all of it when it is shorter. */
  function Window<T>(s: seq<T>): (r: seq<T>)
    ensures |r| == if |s| > MaxEntries then MaxEntries else |s|
    ensures r == s[|s| - |r|..]
  {
    if |s| > MaxEntries then s[|s| - MaxEntries..] else s
  }

  /** The log after one more interaction: the entry is appended and the oldest
      entries beyond the cap are dropped. */
  function Logged(log: seq<Entry>, e: Entry): (r: seq<Entry>)
    ensures |r| <= MaxEntries
    ensures |r| > 0 && r[|r| - 1] == e
    ensures |log| < MaxEntries ==> r == log + [e]
    ensures |log| >= MaxEntries ==> r == log[|log| - (MaxEntries - 1)..] + [e]
  {
    var l := log + [e];
    assert |log| >= MaxEntries ==> l[|l| - MaxEntries..] == log[|log| - (MaxEntries - 1)..] + [e];
    Window(l)
  }

  /** The log after a run of interactions, oldest first. */
  function LogAll(log: seq<Entry>, es: seq<Entry>): (r: seq<Entry>)
    ensures |r| <= |log| + |es|
  {
    if es == [] then log else Logged(LogAll(log, es[..|es| - 1]), es[|es| - 1])
  }

  /** Trimming before appending or after appending gives the same window. */
  lemma WindowStep<T>(s: seq<T>, e: T)
    ensures Window(Window(s) + [e]) == Window(s + [e])
  {
    if |s| > MaxEntries {
      assert Window(s) + [e] == s[|s| - MaxEntries..] + [e];
      assert (s[|s| - MaxEntries..] + [e])[1..] == (s + [e])[|s| + 1 - MaxEntries..];
    }
  }

  /** However many interactions are logged, the log holds exactly the most
      recent `MaxEntries` of the whole history, oldest first. */
  lemma {:induction false} LogIsRecentHistory(log: seq<Entry>, es: seq<Entry>)
    requires |log| <= MaxEntries
    ensures LogAll(log, es) == Window(log + es)
    decreases |es|
  {
    if es == [] {
      assert log + es == log;
    } else {
      var init := es[..|es| - 1];
      var e := es[|es| - 1];
      assert es == init + [e];
      calc {
        LogAll(log, es);
        Logged(LogAll(log, init), e);
        { LogIsRecentHistory(log, init); }
        Logged(Window(log + init), e);
        Window(Window(log + init) + [e]);
        { WindowStep(log + init, e); }
        Window(log + init + [e]);
        { assert log + init + [e] == log + es; }
        Window(log + es);
      }
    }
  }

  // ---------------------------------------------------------------------
  // The application object

  class EquivalenceExperiment {
    var isInitialized: bool
    var interactionLog: seq<Entry>
    /** The class list of the page body, which the layout update edits. */
    var bodyClasses: set<string>

    ghost predicate Valid()
      reads this
    {
      |interactionLog| <= MaxEntries
    }

    /** A fresh application before start-up. The code creates the log only
        when progress tracking starts; here it exists, empty, from the start. */
    constructor(bodyClasses: set<string>)
      ensures Valid()
      ensures !isInitialized && interactionLog == [] && this.bodyClasses == bodyClasses
    {
      isInitialized := false;
      interactionLog := [];
      this.bodyClasses := bodyClasses;
    }

    /** The breakpoint update: the two layout classes are set from the width and
        every other class of the body is kept. */
    method UpdateLayout(width: int)
      modifies this
      ensures bodyClasses == Relayout(old(bodyClasses), width)
      ensures isInitialized == old(isInitialized) && interactionLog == old(interactionLog)
    {
      if width < MobileBelow {
        bodyClasses := bodyClasses + {MobileClass};
      } else {
        bodyClasses := bodyClasses - {MobileClass};
      }
      if width >= MobileBelow && width < TabletBelow {
        bodyClasses := bodyClasses + {TabletClass};
      } else {
        bodyClasses := bodyClasses - {TabletClass};
      }
    }

    /** Start-up: a missing dependency aborts with its message and changes
        nothing; otherwise the layout is set, the log is emptied and the
        application is marked initialized. */
    method Initialize(deps: seq<Dependency>, width: int) returns (error: Option<string>)
      modifies this
      ensures error == CheckDependencies(deps)
      ensures error.Some? ==> (isInitialized == old(isInitialized)
        && interactionLog == old(interactionLog) && bodyClasses == old(bodyClasses))
      ensures error.None? ==> (isInitialized && interactionLog == []
        && bodyClasses == Relayout(old(bodyClasses), width))
    {
      error := CheckDependencies(deps);
      if error.Some? {
        return;
      }
      UpdateLayout(width);
      interactionLog := [];
      isInitialized := true;
    }

    /** Appends one entry and keeps only the most recent `MaxEntries`. */
    method LogInteraction(kind: string, data: map<string, string>, timestamp: int, url: string)
      modifies this
      ensures interactionLog == Logged(old(interactionLog), Entry(kind, data, timestamp, url))
      ensures isInitialized == old(isInitialized) && bodyClasses == old(bodyClasses)
      ensures Valid()
    {
      interactionLog := interactionLog + [Entry(kind, data, timestamp, url)];
      if |interactionLog| > MaxEntries {
        interactionLog := interactionLog[|interactionLog| - MaxEntries..];
      }
    }
  }
}
