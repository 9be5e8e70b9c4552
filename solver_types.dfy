/**
 * The registry of solver configurations the studio offers
 * (src/fluidStudio/FluidSolverTypes.cpp): each type is a triple of solver,
 * neighborhood-search and kernel names. A query looks for an exact triple
 * and, given a main focus, falls back to the best partial match. The
 * sorted name lists feed the selection widgets.
 *
 * The factory, type-test and settings-access lambdas of each entry build
 * and inspect solver objects; they are not part of this model.
 */
module SolverTypes {
  import Wrappers

  datatype SolverSettingsType = SettingsSESPH | SettingsIISPH | SettingsSESPH3D | SettingsIISPH3D

  datatype FluidSolverType = FluidSolverType(
    nameSolver: string,
    nameNeighborhoodSearch: string,
    nameKernel: string,
    settingsType: SolverSettingsType)

  datatype FluidSolverTypeQuery = FluidSolverTypeQuery(
    nameSolver: string,
    nameNeighborhoodSearch: string,
    nameKernel: string)

  datatype QueryMainFocus = None | Solver | NeighborhoodSearch | Kernel

  /** The ten configurations add_types registers, in registration order. */
  const RegisteredTypes: seq<FluidSolverType> := [
    FluidSolverType("SESPH", "QuadraticNeighborhoodSearchDynamicAllocated", "CubicSplineKernel", SettingsSESPH),
    FluidSolverType("SESPH", "HashedNeighborhoodSearch", "CubicSplineKernel", SettingsSESPH),
    FluidSolverType("IISPH", "QuadraticNeighborhoodSearchDynamicAllocated", "CubicSplineKernel", SettingsIISPH),
    FluidSolverType("IISPH", "HashedNeighborhoodSearch", "CubicSplineKernel", SettingsIISPH),
    FluidSolverType("SESPH-3D", "QuadraticNeighborhoodSearch3D", "CubicSplineKernel3D", SettingsSESPH3D),
    FluidSolverType("SESPH-3D", "HashedNeighborhoodSearch3D", "CubicSplineKernel3D", SettingsSESPH3D),
    FluidSolverType("SESPH-3D", "CompressedNeighborhoodSearch", "CubicSplineKernel3D", SettingsSESPH3D),
    FluidSolverType("IISPH-3D", "QuadraticNeighborhoodSearch3D", "CubicSplineKernel3D", SettingsIISPH3D),
    FluidSolverType("IISPH-3D", "HashedNeighborhoodSearch3D", "CubicSplineKernel3D", SettingsIISPH3D),
    FluidSolverType("IISPH-3D", "CompressedNeighborhoodSearch", "CubicSplineKernel3D", SettingsIISPH3D)
  ]

  predicate ExactMatch(t: FluidSolverType, q: FluidSolverTypeQuery) {
    t.nameSolver == q.nameSolver &&
    t.nameNeighborhoodSearch == q.nameNeighborhoodSearch &&
    t.nameKernel == q.nameKernel
  }

  function Indicator(b: bool): nat {
    if b then 1 else 0
  }

  /**
   * How well a type matches a query under a focus: 0 unless the focused
   * name matches, and then 1 plus one for each other matching name.
   * Without a focus nothing scores.
   */
  function Score(t: FluidSolverType, q: FluidSolverTypeQuery, focus: QueryMainFocus): nat
  {
    var s := t.nameSolver == q.nameSolver;
    var n := t.nameNeighborhoodSearch == q.nameNeighborhoodSearch;
    var k := t.nameKernel == q.nameKernel;
    match focus
    case None => 0
    case Solver => if s then 1 + Indicator(n) + Indicator(k) else 0
    case NeighborhoodSearch => if n then 1 + Indicator(s) + Indicator(k) else 0
    case Kernel => if k then 1 + Indicator(n) + Indicator(s) else 0
  }

  /** An exact match scores the maximum under every focus but None. */
  lemma ExactScoresThree(t: FluidSolverType, q: FluidSolverTypeQuery, focus: QueryMainFocus)
    ensures ExactMatch(t, q) && focus != None ==> Score(t, q, focus) == 3
    ensures Score(t, q, focus) <= 3
    ensures Score(t, q, focus) == 3 ==> ExactMatch(t, q)
  {
  }

  /**
   * query_type(query, focus): the index of the chosen type in `types`, or
   * None for the null pointer. The first exact match wins; otherwise, with
   * a focus, the earliest type with the highest positive score.
   */
  method QueryType(types: seq<FluidSolverType>, query: FluidSolverTypeQuery, focus: QueryMainFocus)
    returns (r: Wrappers.Option<nat>)
    ensures r.Some? ==> r.value < |types|
    ensures (exists k :: 0 <= k < |types| && ExactMatch(types[k], query)) ==>
      r.Some? && ExactMatch(types[r.value], query) &&
      forall j :: 0 <= j < r.value ==> !ExactMatch(types[j], query)
    ensures (forall k :: 0 <= k < |types| ==> !ExactMatch(types[k], query)) ==>
      && (r.None? <==> forall k :: 0 <= k < |types| ==> Score(types[k], query, focus) == 0)
      && (r.Some? ==>
            && (forall j :: 0 <= j < |types| ==> Score(types[j], query, focus) <= Score(types[r.value], query, focus))
            && (forall j :: 0 <= j < r.value ==> Score(types[j], query, focus) < Score(types[r.value], query, focus)))
    ensures focus == None && (forall k :: 0 <= k < |types| ==> !ExactMatch(types[k], query)) ==> r.None?
  {
    var bestSoFar: Wrappers.Option<nat> := Wrappers.None;
    var matchedFactors := 0;
    var i := 0;
    while i < |types|
      invariant 0 <= i <= |types|
      invariant forall j :: 0 <= j < i ==> !ExactMatch(types[j], query)
      invariant forall j :: 0 <= j < i ==> Score(types[j], query, focus) <= matchedFactors
      invariant bestSoFar.None? <==> matchedFactors == 0
      invariant bestSoFar.Some? ==>
        && bestSoFar.value < i
        && Score(types[bestSoFar.value], query, focus) == matchedFactors
        && forall j :: 0 <= j < bestSoFar.value ==> Score(types[j], query, focus) < matchedFactors
    {
      var t := types[i];
      if focus != None {
        var currentMatchedFactors := 0;
        if focus == Solver {
          if t.nameSolver == query.nameSolver {
            currentMatchedFactors := 1;
            if t.nameNeighborhoodSearch == query.nameNeighborhoodSearch {
              currentMatchedFactors := currentMatchedFactors + 1;
            }
            if t.nameKernel == query.nameKernel {
              currentMatchedFactors := currentMatchedFactors + 1;
            }
          }
        } else if focus == NeighborhoodSearch {
          if t.nameNeighborhoodSearch == query.nameNeighborhoodSearch {
            currentMatchedFactors := 1;
            if t.nameSolver == query.nameSolver {
              currentMatchedFactors := currentMatchedFactors + 1;
            }
            if t.nameKernel == query.nameKernel {
              currentMatchedFactors := currentMatchedFactors + 1;
            }
          }
        } else if focus == Kernel {
          if t.nameKernel == query.nameKernel {
            currentMatchedFactors := 1;
            if t.nameNeighborhoodSearch == query.nameNeighborhoodSearch {
              currentMatchedFactors := currentMatchedFactors + 1;
            }
            if t.nameSolver == query.nameSolver {
              currentMatchedFactors := currentMatchedFactors + 1;
            }
          }
        }
        assert currentMatchedFactors == Score(t, query, focus);

        if currentMatchedFactors > matchedFactors {
          matchedFactors := currentMatchedFactors;
          bestSoFar := Wrappers.Some(i);
        }
      }

      if t.nameSolver == query.nameSolver {
        if t.nameNeighborhoodSearch == query.nameNeighborhoodSearch {
          if t.nameKernel == query.nameKernel {
            return Wrappers.Some(i);
          }
        }
      }
      i := i + 1;
    }
    return bestSoFar;
  }

  /** Strict lexicographic order on strings, as std::string compares them. */
  predicate LexLess(a: string, b: string)
    decreases |a|
  {
    if a == [] then b != []
    else b != [] && (a[0] < b[0] || (a[0] == b[0] && LexLess(a[1..], b[1..])))
  }

  lemma {:induction false} LexLessIrreflexive(a: string)
    ensures !LexLess(a, a)
    decreases |a|
  {
    if a != [] {
      LexLessIrreflexive(a[1..]);
    }
  }

  lemma {:induction false} LexLessTransitive(a: string, b: string, c: string)
    requires LexLess(a, b) && LexLess(b, c)
    ensures LexLess(a, c)
    decreases |a|
  {
    if a != [] && a[0] == b[0] && b[0] == c[0] {
      LexLessTransitive(a[1..], b[1..], c[1..]);
    }
  }

  lemma {:induction false} LexLessTotal(a: string, b: string)
    requires a != b
    ensures LexLess(a, b) || LexLess(b, a)
    decreases |a|
  {
    if a != [] && b != [] && a[0] == b[0] {
      assert a == [a[0]] + a[1..] && b == [b[0]] + b[1..];
      LexLessTotal(a[1..], b[1..]);
    }
  }

  predicate StrictlySorted(xs: seq<string>) {
    forall i, j :: 0 <= i < j < |xs| ==> LexLess(xs[i], xs[j])
  }

  /**
   * std::set<std::string>::insert on the set's ordered contents: the result
   * is the sorted sequence of the old elements and `x`, without duplicates.
   */
  function InsertSorted(xs: seq<string>, x: string): (r: seq<string>)
    requires StrictlySorted(xs)
    ensures StrictlySorted(r)
    ensures forall s :: s in r <==> s == x || s in xs
    decreases |xs|
  {
    if xs == [] then [x]
    else if x == xs[0] then xs
    else if LexLess(x, xs[0]) then
      assert StrictlySorted([x] + xs) by {
        forall i, j | 0 <= i < j < |xs| + 1
          ensures LexLess(([x] + xs)[i], ([x] + xs)[j])
        {
          if i == 0 && j > 1 {
            LexLessTransitive(x, xs[0], xs[j - 1]);
          }
        }
      }
      [x] + xs
    else
      LexLessTotal(x, xs[0]);
      var rest := InsertSorted(xs[1..], x);
      assert StrictlySorted([xs[0]] + rest) by {
        forall j | 0 <= j < |rest|
          ensures LexLess(xs[0], rest[j])
        {
          assert rest[j] in rest;
        }
      }
      assert forall s :: s in xs <==> s == xs[0] || s in xs[1..] by {
        assert xs == [xs[0]] + xs[1..];
      }
      [xs[0]] + rest
  }

  /** The registry: the registered types and the name lists derived from them. */
  class FluidSolverTypes {
    var types: seq<FluidSolverType>
    var namesSolver: seq<string>
    var namesNeighborhoodSearch: seq<string>
    var namesKernel: seq<string>

    /** The name lists hold each distinct name of the registered types once, sorted. */
    ghost predicate NamesListed()
      reads this
    {
      && StrictlySorted(namesSolver)
      && StrictlySorted(namesNeighborhoodSearch)
      && StrictlySorted(namesKernel)
      && (forall n :: n in namesSolver <==> exists t :: t in types && t.nameSolver == n)
      && (forall n :: n in namesNeighborhoodSearch <==> exists t :: t in types && t.nameNeighborhoodSearch == n)
      && (forall n :: n in namesKernel <==> exists t :: t in types && t.nameKernel == n)
    }

    /** The constructor: add_types, then find_possible_names. */
    constructor ()
      ensures types == RegisteredTypes
      ensures NamesListed()
    {
      types := RegisteredTypes;
      namesSolver, namesNeighborhoodSearch, namesKernel := [], [], [];
      new;
      FindPossibleNames();
    }

    /** find_possible_names: collect each column into an ordered set and copy it out. */
    method FindPossibleNames()
      modifies this
      ensures types == old(types)
      ensures NamesListed()
    {
      var tmpSolver: seq<string> := [];
      var tmpNs: seq<string> := [];
      var tmpKernel: seq<string> := [];
      var i := 0;
      while i < |types|
        invariant 0 <= i <= |types|
        invariant StrictlySorted(tmpSolver) && StrictlySorted(tmpNs) && StrictlySorted(tmpKernel)
        invariant forall n :: n in tmpSolver <==> exists j :: 0 <= j < i && types[j].nameSolver == n
        invariant forall n :: n in tmpNs <==> exists j :: 0 <= j < i && types[j].nameNeighborhoodSearch == n
        invariant forall n :: n in tmpKernel <==> exists j :: 0 <= j < i && types[j].nameKernel == n
      {
        var t := types[i];
        tmpSolver := InsertSorted(tmpSolver, t.nameSolver);
        tmpNs := InsertSorted(tmpNs, t.nameNeighborhoodSearch);
        tmpKernel := InsertSorted(tmpKernel, t.nameKernel);
        i := i + 1;
      }
      namesSolver := tmpSolver;
      namesNeighborhoodSearch := tmpNs;
      namesKernel := tmpKernel;
      forall n ensures (exists t :: t in types && t.nameSolver == n) ==> n in namesSolver {
        if t :| t in types && t.nameSolver == n {
          var j :| 0 <= j < |types| && types[j] == t;
        }
      }
      forall n ensures (exists t :: t in types && t.nameNeighborhoodSearch == n) ==> n in namesNeighborhoodSearch {
        if t :| t in types && t.nameNeighborhoodSearch == n {
          var j :| 0 <= j < |types| && types[j] == t;
        }
      }
      forall n ensures (exists t :: t in types && t.nameKernel == n) ==> n in namesKernel {
        if t :| t in types && t.nameKernel == n {
          var j :| 0 <= j < |types| && types[j] == t;
        }
      }
    }
  }
}
