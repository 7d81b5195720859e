/** The filter list that decides which errors are printed, and how configuration
    files change it while one file is processed. */
module Filters {
  import opened Text

  const DEFAULT_FILTERS := ["-build/include_alpha"]

  // ---------- deciding a category ----------

  predicate Signed(f: string) {
    f != "" && (f[0] == '+' || f[0] == '-')
  }

  predicate AllSigned(filters: seq<string>) {
    forall i :: 0 <= i < |filters| ==> Signed(filters[i])
  }

  /** The filter's text, after its sign, is a prefix of the category. */
  predicate Concerns(f: string, category: string) {
    f != "" && f[1..] <= category
  }

  lemma ConcernsPrefix(sign: char, name: string, category: string)
    ensures Concerns([sign] + name, category) <==> |name| <= |category| && category[..|name|] == name
  {
    assert ([sign] + name)[1..] == name;
  }

  /** What the last filter that concerns the category says, if there is one:
      whether it has a minus sign. */
  function Verdict(filters: seq<string>, category: string): (r: Option<bool>)
    ensures r.None? ==> forall i :: 0 <= i < |filters| ==> !Concerns(filters[i], category)
    ensures r.Some? ==> exists i :: 0 <= i < |filters| && Concerns(filters[i], category)
                                    && r.value == (filters[i][0] == '-')
                                    && forall j :: i < j < |filters| ==> !Concerns(filters[j], category)
  {
    if filters == [] then None
    else
      var last := filters[|filters| - 1];
      if Concerns(last, category) then Some(last[0] == '-') else Verdict(filters[..|filters| - 1], category)
  }

  method IsFiltered(filters: seq<string>, category: string) returns (filtered: bool)
    requires AllSigned(filters)
    ensures filtered <==> Verdict(filters, category) == Some(true)
  {
    filtered := false;
    for k := 0 to |filters|
      invariant filtered <==> Verdict(filters[..k], category) == Some(true)
    {
      assert filters[..k + 1][..k] == filters[..k];
      if filters[k][0] == '-' {
        if Concerns(filters[k], category) {
          filtered := true;
        }
      } else {
        assert filters[k][0] == '+';
        if Concerns(filters[k], category) {
          filtered := false;
        }
      }
    }
    assert filters[..|filters|] == filters;
  }

  /** A later layer decides every category it concerns. */
  lemma {:induction false} LaterLayerDecides(earlier: seq<string>, later: seq<string>, category: string)
    ensures Verdict(earlier + later, category)
         == if Verdict(later, category).Some? then Verdict(later, category) else Verdict(earlier, category)
    decreases |later|
  {
    if later == [] {
      assert earlier + later == earlier;
    } else {
      var init := later[..|later| - 1];
      assert (earlier + later)[..|earlier + later| - 1] == earlier + init;
      LaterLayerDecides(earlier, init, category);
    }
  }

  // ---------- configuration files ----------

  /** The options of a configuration file that matter here. */
  datatype ConfigLine = NoParent | Filter(value: string) | Exclude(matches: bool) | Unrelated

  function Clean(pieces: seq<string>): seq<string> {
    if pieces == [] then []
    else
      var f := Strip(pieces[0]);
      (if f == "" then [] else [f]) + Clean(pieces[1..])
  }

  /** The filters of a comma-separated list: stripped, without the empty ones. */
  function SplitFilters(s: string): seq<string> {
    Clean(Split(s, 0))
  }

  lemma CleanOne(piece: string, rest: seq<string>)
    ensures Clean([piece]) == if Strip(piece) == "" then [] else [Strip(piece)]
    ensures Clean([piece] + rest) == Clean([piece]) + Clean(rest)
  {
    assert [piece][1..] == [] && ([piece] + rest)[1..] == rest;
    assert Clean([]) == [];
  }

  lemma FiltersOfPiece(piece: string, rest: string)
    requires ',' !in piece
    ensures SplitFilters(piece) == if Strip(piece) == "" then [] else [Strip(piece)]
    ensures SplitFilters(piece + "," + rest) == SplitFilters(piece) + SplitFilters(rest)
  {
    SplitAtComma(piece, rest);
    CleanOne(piece, Split(rest, 0));
  }

  /** Filters are told apart by commas, white space around them does not count, and an
      empty one is dropped. */
  lemma FiltersRead(space: string, f: string, tail: string, piece: string, rest: string)
    requires AllSpace(space) && AllSpace(tail) && ',' !in f && piece == space + f + tail
    requires f == "" || (!IsSpace(f[0]) && !IsSpace(f[|f| - 1]))
    ensures SplitFilters(piece) == if f == "" then [] else [f]
    ensures SplitFilters(piece + "," + rest) == (if f == "" then [] else [f]) + SplitFilters(rest)
  {
    StripSpace(space, f, tail);
    FiltersOfPiece(piece, rest);
  }

  /** One after the other, or nothing if one of them is nothing. */
  function Both(a: Option<seq<seq<string>>>, b: Option<seq<seq<string>>>): Option<seq<seq<string>>> {
    if a.None? || b.None? then None else Some(a.value + b.value)
  }

  function ValuesOf(line: ConfigLine): Option<seq<seq<string>>> {
    if line == Exclude(true) then None
    else Some(if line.Filter? then [SplitFilters(line.value)] else [])
  }

  function Values(lines: seq<ConfigLine>): Option<seq<seq<string>>> {
    if lines == [] then Some([]) else Both(ValuesOf(lines[0]), Values(lines[1..]))
  }

  /** The filters of each filter option of the configuration files, from the
      nearest directory upwards, in reading order; nothing when a file excludes the
      source. */
  function Collect(configs: seq<seq<ConfigLine>>): Option<seq<seq<string>>> {
    if configs == [] then Some([])
    else if NoParent in configs[0] then Values(configs[0])
    else Both(Values(configs[0]), Collect(configs[1..]))
  }

  lemma BothAssociates(a: Option<seq<seq<string>>>, b: Option<seq<seq<string>>>, c: Option<seq<seq<string>>>)
    ensures Both(Both(a, b), c) == Both(a, Both(b, c))
    ensures Both(Some([]), a) == a == Both(a, Some([]))
  {
    if a.Some? {
      assert [] + a.value == a.value == a.value + [];
      if b.Some? && c.Some? {
        assert (a.value + b.value) + c.value == a.value + (b.value + c.value);
      }
    }
  }

  /** The options of a file are read in order; one that excludes the source leaves
      nothing, and options of other kinds do not matter. */
  lemma {:induction false} ValuesConcat(a: seq<ConfigLine>, b: seq<ConfigLine>)
    ensures Values(a + b) == Both(Values(a), Values(b))
  {
    if a == [] {
      assert a + b == b;
      BothAssociates(Values(b), None, None);
    } else {
      assert (a + b)[1..] == a[1..] + b;
      ValuesConcat(a[1..], b);
      BothAssociates(ValuesOf(a[0]), Values(a[1..]), Values(b));
    }
  }

  lemma ValuesOfOne(line: ConfigLine)
    ensures Values([line])
         == match line
            case Filter(value) => Some([SplitFilters(value)])
            case Exclude(matches) => if matches then None else Some([])
            case _ => Some([])
  {
    assert [line][1..] == [] && Values([]) == Some([]);
    BothAssociates(ValuesOf(line), None, None);
  }

  lemma {:induction false} CollectConcat(near: seq<seq<ConfigLine>>, outer: seq<seq<ConfigLine>>)
    requires forall i :: 0 <= i < |near| ==> NoParent !in near[i]
    ensures Collect(near + outer) == Both(Collect(near), Collect(outer))
  {
    if near == [] {
      assert near + outer == outer;
      BothAssociates(Collect(outer), None, None);
    } else {
      assert (near + outer)[1..] == near[1..] + outer;
      CollectConcat(near[1..], outer);
      BothAssociates(Values(near[0]), Collect(near[1..]), Collect(outer));
    }
  }

  /** The files are read from the nearest directory upwards, up to the first one that
      says it has no parent; what lies further out does not matter. */
  lemma CollectStops(near: seq<seq<ConfigLine>>, last: seq<ConfigLine>, outer: seq<seq<ConfigLine>>)
    requires (forall i :: 0 <= i < |near| ==> NoParent !in near[i]) && NoParent in last
    ensures Collect(near + ([last] + outer)) == Both(Collect(near), Values(last))
  {
    CollectConcat(near, [last] + outer);
  }

  /** The filters that the options from the `i`-th on add, the last one read first. */
  function Added(values: seq<seq<string>>, i: nat): seq<string>
    requires i <= |values|
    decreases |values| - i
  {
    if i == |values| then [] else Added(values, i + 1) + values[i]
  }

  lemma {:induction false} AddedGrows(values: seq<seq<string>>, i: nat)
    requires i <= |values|
    ensures Added(values, i) <= Added(values, 0)
  {
    if i > 0 {
      AddedGrows(values, i - 1);
    }
  }

  lemma {:induction false} NearestFrom(values: seq<seq<string>>, i: nat, k: nat, category: string)
    requires k <= i < |values| && Verdict(values[i], category).Some?
    requires forall j :: k <= j < i ==> Verdict(values[j], category).None?
    ensures Verdict(Added(values, k), category) == Verdict(values[i], category)
    decreases i - k
  {
    LaterLayerDecides(Added(values, k + 1), values[k], category);
    if k < i {
      NearestFrom(values, i, k + 1, category);
    }
  }

  /** The option read first, which is the nearest directory's, decides every
      category it concerns. */
  lemma NearestDecides(filters: seq<string>, values: seq<seq<string>>, i: nat, category: string)
    requires i < |values| && Verdict(values[i], category).Some?
    requires forall j :: 0 <= j < i ==> Verdict(values[j], category).None?
    ensures Verdict(filters + Added(values, 0), category) == Verdict(values[i], category)
  {
    NearestFrom(values, i, 0, category);
    LaterLayerDecides(filters, Added(values, 0), category);
  }

  /** The configuration files exclude the source, or all their filters have a sign. */
  predicate WellFormed(configs: seq<seq<ConfigLine>>) {
    Collect(configs).Some? ==> AllSigned(Added(Collect(configs).value, 0))
  }

  lemma UnsignedStays(a: seq<string>, b: seq<string>)
    requires !AllSigned(a)
    ensures !AllSigned(a + b)
  {
    var i :| 0 <= i < |a| && !Signed(a[i]);
    assert (a + b)[i] == a[i];
  }

  lemma SignedConcat(a: seq<string>, b: seq<string>)
    requires AllSigned(a)
    ensures AllSigned(a + b) <==> AllSigned(b)
  {
    assert forall i :: 0 <= i < |b| ==> b[i] == (a + b)[|a| + i];
  }

  class LintState {
    var filters: seq<string>
    var backup: seq<string>

    constructor (commandLine: seq<string>)
      ensures filters == backup == ["-build/include_alpha"] + commandLine
    {
      filters := DEFAULT_FILTERS + commandLine;
      backup := DEFAULT_FILTERS + commandLine;
    }

    /** Appends the filters of one option; fails when some filter has no sign. */
    method AddFilters(more: seq<string>) returns (ok: bool)
      modifies this`filters
      ensures filters == old(filters) + more
      ensures ok <==> AllSigned(filters)
    {
      filters := filters + more;
      ok := true;
      for i := 0 to |filters|
        invariant ok && AllSigned(filters[..i])
      {
        if !Signed(filters[i]) {
          return false;
        }
      }
      assert filters[..|filters|] == filters;
    }

    /** Adds the collected options, outermost directory first. */
    method AddCollected(values: seq<seq<string>>) returns (ok: bool)
      requires AllSigned(filters)
      modifies this`filters
      ensures ok <==> AllSigned(old(filters) + Added(values, 0))
      ensures ok ==> filters == old(filters) + Added(values, 0)
    {
      for i := |values| downto 0
        invariant filters == old(filters) + Added(values, i) && AllSigned(filters)
      {
        ok := AddFilters(values[i]);
        if !ok {
          AddedGrows(values, i);
          UnsignedStays(filters, Added(values, 0)[|Added(values, i)|..]);
          assert old(filters) + Added(values, 0) == filters + Added(values, 0)[|Added(values, i)|..];
          return;
        }
      }
      ok := true;
    }

    /** Processes a file under its configuration files.  Unless a filter has no
        sign, the filter list is what it was, whether the file is excluded, cannot be
        read or is checked; only a file that is checked has its category decided. */
    method ProcessFile(configs: seq<seq<ConfigLine>>, readable: bool, category: string)
      returns (ok: bool, filtered: Option<bool>)
      requires AllSigned(filters)
      modifies this
      ensures ok <==> WellFormed(configs)
      ensures ok ==> filters == old(filters)
      ensures filtered.Some? <==> ok && Collect(configs).Some? && readable
      ensures filtered.Some? ==>
                filtered.value == (Verdict(old(filters) + Added(Collect(configs).value, 0), category) == Some(true))
    {
      backup := filters;
      filtered := None;
      var values := Collect(configs);
      if values.None? {
        filters := backup;
        return true, None;
      }
      ok := AddCollected(values.value);
      SignedConcat(backup, Added(values.value, 0));
      if !ok {
        return;
      }
      if !readable {
        filters := backup;
        return;
      }
      var decided := IsFiltered(filters, category);
      filtered := Some(decided);
      filters := backup;
    }

    /** Processes one file after the other, each with its configuration files and
        readable or not, up to a filter without a sign. */
    method ProcessFiles(files: seq<(seq<seq<ConfigLine>>, bool)>, category: string) returns (ok: bool)
      requires AllSigned(filters)
      modifies this
      ensures ok <==> forall i :: 0 <= i < |files| ==> WellFormed(files[i].0)
      ensures ok ==> filters == old(filters)
    {
      for i := 0 to |files|
        invariant filters == old(filters)
        invariant forall j :: 0 <= j < i ==> WellFormed(files[j].0)
      {
        var good, filtered := ProcessFile(files[i].0, files[i].1, category);
        if !good {
          return false;
        }
      }
      return true;
    }
  }
}
