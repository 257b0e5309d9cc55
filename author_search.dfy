/**
 The author search step of the h-frac calculator: the search service's result
 list becomes at most five "name (institution)" labels, each mapped to the
 author id that the metric engine is later run on.
 */
module AuthorSearch {

  datatype Option<T> = None | Some(value: T)

  /** A field of a record as the search service returns it: missing, present
      with a JSON null, or present with a value. */
  datatype Field<T> = Absent | Null | Present(value: T)

  /** The `last_known_institution` object of an author record. */
  datatype Institution = Institution(displayName: Field<string>)

  /** One author record of the search results. */
  datatype Author = Author(displayName: string, id: string, lastKnownInstitution: Field<Institution>)

  /** What the search step shows: nothing when the request fails, the "No
      authors found." message, or the selection box's labels in order with
      the label-to-id map behind them. */
  datatype SearchOutcome =
    | NoResponse
    | NoAuthorsFound
    | Candidates(labels: seq<string>, options: map<string, string>)

  const NoAffiliation: string := "No Affiliation"

  /** At most this many search results are offered for selection. */
  const MaxCandidates: nat := 5

  /** The first results, in the service's relevance order. */
  function Top(results: seq<Author>): (top: seq<Author>)
    ensures |top| == if |results| <= MaxCandidates then |results| else MaxCandidates
    ensures forall i :: 0 <= i < |top| ==> top[i] == results[i]
  {
    if |results| <= MaxCandidates then results else results[..MaxCandidates]
  }

  /** An institution's name as it is printed in a label; a null name prints as
      Python's "None". */
  function InstitutionName(inst: Institution): (name: string)
    ensures inst.displayName.Present? ==> name == inst.displayName.value
    ensures inst.displayName.Absent? ==> name == NoAffiliation
    ensures inst.displayName.Null? ==> name == "None"
  {
    match inst.displayName
    case Absent => NoAffiliation
    case Null => "None"
    case Present(name) => name
  }

  /** The label suffix as the script computes it; `None` stands for the
      AttributeError raised when `last_known_institution` is present but null. */
  function AffiliationAsWritten(f: Field<Institution>): (r: Option<string>)
    ensures r.None? <==> f.Null?
    ensures f.Absent? ==> r == Some(NoAffiliation)
    ensures f.Present? ==> r == Some(InstitutionName(f.value))
  {
    match f
    case Absent => Some(NoAffiliation)
    case Null => None
    case Present(inst) => Some(InstitutionName(inst))
  }

  /** The label suffix with a null institution treated like a missing one. */
  function Affiliation(f: Field<Institution>): (r: string)
    ensures f.Absent? || f.Null? ==> r == NoAffiliation
    ensures f.Present? && f.value.displayName.Absent? ==> r == NoAffiliation
    ensures f.Present? && f.value.displayName.Present? ==> r == f.value.displayName.value
    ensures AffiliationAsWritten(f).Some? ==> r == AffiliationAsWritten(f).value
    ensures AffiliationAsWritten(f).None? <==> f.Null?
  {
    match f
    case Present(inst) => InstitutionName(inst)
    case _ => NoAffiliation
  }

  /** The selection-box label of an author. */
  function Label(r: Author): (l: string)
    ensures |l| == |r.displayName| + |Affiliation(r.lastKnownInstitution)| + 3
  {
    r.displayName + " (" + Affiliation(r.lastKnownInstitution) + ")"
  }

  /** Two results with the same name but different affiliations get distinct
      labels, so the selection box tells them apart. */
  lemma LabelsSeparateAffiliations(a: Author, b: Author)
    requires a.displayName == b.displayName
    requires Affiliation(a.lastKnownInstitution) != Affiliation(b.lastKnownInstitution)
    ensures Label(a) != Label(b)
  {
    var n := |a.displayName|;
    var fa, fb := Affiliation(a.lastKnownInstitution), Affiliation(b.lastKnownInstitution);
    var la, lb := Label(a), Label(b);
    assert la[n + 2..|la| - 1] == fa;
    assert lb[n + 2..|lb| - 1] == fb;
  }

  /** The label as the script computes it; `None` when it raises. */
  function LabelAsWritten(r: Author): (l: Option<string>)
    ensures l.None? <==> r.lastKnownInstitution.Null?
    ensures l.Some? ==> l.value == Label(r)
  {
    match AffiliationAsWritten(r.lastKnownInstitution)
    case Some(aff) => Some(r.displayName + " (" + aff + ")")
    case None => None
  }

  /** The (label, id) pairs of a list of results, in order. */
  function Entries(rs: seq<Author>): (es: seq<(string, string)>)
    ensures |es| == |rs|
    ensures forall i :: 0 <= i < |rs| ==> es[i] == (Label(rs[i]), rs[i].id)
  {
    seq(|rs|, i requires 0 <= i < |rs| => (Label(rs[i]), rs[i].id))
  }

  /** A dict built from (label, id) pairs in order: one entry per distinct
      label. */
  function DictOf(ps: seq<(string, string)>): (m: map<string, string>)
    ensures forall k :: k in m <==> exists i :: 0 <= i < |ps| && ps[i].0 == k
    ensures |m| <= |ps|
  {
    if ps == [] then map[]
    else
      var front, last := ps[..|ps| - 1], ps[|ps| - 1];
      assert forall i :: 0 <= i < |front| ==> front[i] == ps[i];
      DictOf(front)[last.0 := last.1]
  }

  /** When two pairs share a label, the later one's id wins. */
  lemma {:induction false} DictOfLastWins(ps: seq<(string, string)>, i: nat)
    requires i < |ps|
    requires forall j :: i < j < |ps| ==> ps[j].0 != ps[i].0
    ensures ps[i].0 in DictOf(ps) && DictOf(ps)[ps[i].0] == ps[i].1
    decreases |ps|
  {
    if i < |ps| - 1 {
      DictOfLastWins(ps[..|ps| - 1], i);
    }
  }

  /** The keys of DictOf(ps) in insertion order, as `list(...keys())` lists
      them: each label once, at its first occurrence. */
  function KeysInOrder(ps: seq<(string, string)>): (ks: seq<string>)
    ensures forall k :: k in ks <==> k in DictOf(ps)
    ensures forall x, y :: 0 <= x < y < |ks| ==> ks[x] != ks[y]
    ensures ps != [] ==> |ks| > 0 && ks[0] == ps[0].0
  {
    if ps == [] then []
    else
      var front, last := ps[..|ps| - 1], ps[|ps| - 1];
      assert forall i :: 0 <= i < |front| ==> front[i] == ps[i];
      var ks := KeysInOrder(front);
      if last.0 in ks then ks else ks + [last.0]
  }

  /** The label-to-id map offered for selection, built from the first five results. */
  function CandidateOptions(results: seq<Author>): (m: map<string, string>)
    ensures |m| <= MaxCandidates && |m| <= |results|
    ensures results != [] ==> |m| >= 1
  {
    var es := Entries(Top(results));
    assert results != [] ==> es[0] in es;
    DictOf(es)
  }

  /** The labels in the order the selection box lists them; the first one is
      preselected. */
  function SelectionLabels(results: seq<Author>): (ls: seq<string>)
    ensures forall k :: k in ls <==> k in CandidateOptions(results)
    ensures forall x, y :: 0 <= x < y < |ls| ==> ls[x] != ls[y]
    ensures results != [] ==> |ls| > 0 && ls[0] == Label(results[0])
  {
    KeysInOrder(Entries(Top(results)))
  }

  /** The preselected label is the top result's, and it selects the id of the
      last of the first five results that share that label. */
  lemma DefaultSelection(results: seq<Author>, i: nat)
    requires i < |results| && i < MaxCandidates && Label(results[i]) == Label(results[0])
    requires forall j :: i < j < |results| && j < MaxCandidates ==> Label(results[j]) != Label(results[0])
    ensures SelectionLabels(results)[0] in CandidateOptions(results)
    ensures CandidateOptions(results)[SelectionLabels(results)[0]] == results[i].id
  {
    CandidateOptionsLaterWins(results, i);
  }

  /** The labels offered are exactly those of the first five results. */
  lemma CandidateOptionsFromTopFive(results: seq<Author>, k: string)
    ensures k in CandidateOptions(results)
      <==> exists i :: 0 <= i < |results| && i < MaxCandidates && Label(results[i]) == k
  {
  }

  /** A label maps to the id of the last of the first five results carrying it. */
  lemma CandidateOptionsLaterWins(results: seq<Author>, i: nat)
    requires i < |results| && i < MaxCandidates
    requires forall j :: i < j < |results| && j < MaxCandidates ==> Label(results[j]) != Label(results[i])
    ensures Label(results[i]) in CandidateOptions(results)
    ensures CandidateOptions(results)[Label(results[i])] == results[i].id
  {
    var es := Entries(Top(results));
    assert forall j :: i < j < |es| ==> es[j].0 != es[i].0;
    DictOfLastWins(es, i);
  }

  /** The pairs as the comprehension as written produces them: `None` when
      one of the labels raises. */
  function EntriesAsWritten(rs: seq<Author>): (r: Option<seq<(string, string)>>)
    ensures r.Some? ==> |r.value| == |rs|
    ensures r.Some? ==> forall i :: 0 <= i < |rs| ==> r.value[i].1 == rs[i].id
  {
    if rs == [] then Some([])
    else
      match (LabelAsWritten(rs[0]), EntriesAsWritten(rs[1..]))
      case (Some(l), Some(es)) => Some([(l, rs[0].id)] + es)
      case _ => None
  }

  /** The label-to-id map as the script builds it; `None` when it raises. */
  function CandidateOptionsAsWritten(results: seq<Author>): (r: Option<map<string, string>>)
    ensures r.Some? ==> |r.value| <= MaxCandidates && |r.value| <= |results|
    ensures r.None? ==> results != []
  {
    match EntriesAsWritten(Top(results))
    case Some(es) => Some(DictOf(es))
    case None => None
  }

  /** The pairs as written are missing exactly when one of the results has a
      null institution, and otherwise are the corrected pairs. */
  lemma {:induction false} EntriesAsWrittenAgrees(rs: seq<Author>)
    ensures EntriesAsWritten(rs).None? <==> exists i :: 0 <= i < |rs| && rs[i].lastKnownInstitution.Null?
    ensures EntriesAsWritten(rs).Some? ==> EntriesAsWritten(rs).value == Entries(rs)
    decreases |rs|
  {
    if rs != [] {
      EntriesAsWrittenAgrees(rs[1..]);
      assert forall i :: 1 <= i < |rs| ==> rs[1..][i - 1] == rs[i];
      if EntriesAsWritten(rs).Some? {
        assert EntriesAsWritten(rs).value == [(Label(rs[0]), rs[0].id)] + Entries(rs[1..]);
      }
    }
  }

  /** The script raises exactly when one of the first five results has a null
      institution; otherwise it builds the corrected map. */
  lemma CandidateOptionsAsWrittenAgrees(results: seq<Author>)
    ensures CandidateOptionsAsWritten(results).None?
      <==> exists i :: 0 <= i < |results| && i < MaxCandidates && results[i].lastKnownInstitution.Null?
    ensures CandidateOptionsAsWritten(results).Some? ==> CandidateOptionsAsWritten(results).value == CandidateOptions(results)
  {
    EntriesAsWrittenAgrees(Top(results));
  }

  /** A single search result whose institution is null makes the script raise
      instead of offering the author; the corrected map offers it with
      "No Affiliation". */
  lemma NullInstitutionRaises()
    ensures CandidateOptionsAsWritten([Author("A. Researcher", "A1", Null)]).None?
    ensures CandidateOptions([Author("A. Researcher", "A1", Null)])
      == map["A. Researcher (No Affiliation)" := "A1"]
  {
    var rs := [Author("A. Researcher", "A1", Null)];
    assert Label(rs[0]) == "A. Researcher (No Affiliation)";
    assert Entries(rs) == [("A. Researcher (No Affiliation)", "A1")];
  }

  /** The search step after the request: a failed request shows nothing, an
      empty result list the "No authors found." message, anything else up to
      five candidates. */
  function SearchAuthors(status: int, results: seq<Author>): (o: SearchOutcome)
    ensures o.NoResponse? <==> status != 200
    ensures o.NoAuthorsFound? <==> status == 200 && results == []
    ensures o.Candidates? ==> 1 <= |o.options| <= MaxCandidates
    ensures o.Candidates? ==> o.options == CandidateOptions(results)
    ensures o.Candidates? ==> o.labels == SelectionLabels(results) && o.labels[0] == Label(results[0])
  {
    if status != 200 then NoResponse
    else if results == [] then NoAuthorsFound
    else Candidates(SelectionLabels(results), CandidateOptions(results))
  }
}
