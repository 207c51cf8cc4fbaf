/**
 * The QA dataset tool: sampling queries, passages and relevance pairs
 * ("qrels"), building the context of a question, the guards of
 * `answer_question`, and the resumable answer-generation loop. Tables are
 * sequences of rows; the chat-completion call is an oracle `api(qid,
 * attempt)` giving the reply, or the API error, of each attempt. Reading and
 * writing parquet files is outside the model.
 */
module QaDataset {
  import opened Wrappers
  import opened PyStr

  /** A row of the queries or the corpus table. */
  datatype Row = Row(id: string, text: string)

  /** A row of the qrels table: query `qid` is answered by passage `pid`. */
  datatype Qrel = Qrel(qid: string, pid: string)

  function Ids(rows: seq<Row>): set<string> {
    set k | 0 <= k < |rows| :: rows[k].id
  }

  function Qids(qrels: seq<Qrel>): set<string> {
    set k | 0 <= k < |qrels| :: qrels[k].qid
  }

  function Pids(qrels: seq<Qrel>): set<string> {
    set k | 0 <= k < |qrels| :: qrels[k].pid
  }

  /** `qrels[qrels["qid"].isin(ids)]`. */
  function QrelsWithQid(qrels: seq<Qrel>, ids: set<string>): (r: seq<Qrel>)
    ensures forall x :: x in r <==> x in qrels && x.qid in ids
  {
    if qrels == [] then []
    else (if qrels[0].qid in ids then [qrels[0]] else []) + QrelsWithQid(qrels[1..], ids)
  }

  /** `qrels[qrels["pid"].isin(ids)]`. */
  function QrelsWithPid(qrels: seq<Qrel>, ids: set<string>): (r: seq<Qrel>)
    ensures forall x :: x in r <==> x in qrels && x.pid in ids
  {
    if qrels == [] then []
    else (if qrels[0].pid in ids then [qrels[0]] else []) + QrelsWithPid(qrels[1..], ids)
  }

  /** `rows[rows["id"].isin(ids)]`. */
  function RowsWithId(rows: seq<Row>, ids: set<string>): (r: seq<Row>)
    ensures forall x :: x in r <==> x in rows && x.id in ids
  {
    if rows == [] then []
    else (if rows[0].id in ids then [rows[0]] else []) + RowsWithId(rows[1..], ids)
  }

  /** The number of qrels of query `q`. */
  function Count(qrels: seq<Qrel>, q: string): nat {
    if qrels == [] then 0 else (if qrels[0].qid == q then 1 else 0) + Count(qrels[1..], q)
  }

  function Min(a: nat, b: nat): nat {
    if a <= b then a else b
  }

  /**
   * `qid_counts.index`: every qid of the qrels once, by non-increasing count.
   * How pandas orders equal counts is left to the caller.
   */
  predicate IsCountOrder(order: seq<string>, qrels: seq<Qrel>) {
    (forall i :: 0 <= i < |order| ==> order[i] in Qids(qrels)) &&
    (forall k :: 0 <= k < |qrels| ==> qrels[k].qid in order) &&
    (forall i, j :: 0 <= i < j < |order| ==> order[i] != order[j] && Count(qrels, order[i]) >= Count(qrels, order[j]))
  }

  /** The qrels left by the two `isin` filters of `sample_data`. */
  function ValidQrels(queries: seq<Row>, corpus: seq<Row>, qrels: seq<Qrel>): seq<Qrel> {
    QrelsWithPid(QrelsWithQid(qrels, Ids(queries)), Ids(corpus))
  }

  datatype Sample = Sample(queries: seq<Row>, corpus: seq<Row>, qrels: seq<Qrel>, qids: seq<string>)

  /**
   * `sample_data`. `order` is `value_counts()` of the filtered qrels and
   * `extraPids` the random extra sample of corpus ids.
   */
  function SampleData(queries: seq<Row>, corpus: seq<Row>, qrels: seq<Qrel>, nq: nat,
                      order: seq<string>, extraPids: set<string>): Sample
    requires IsCountOrder(order, ValidQrels(queries, corpus, qrels))
  {
    var valid := ValidQrels(queries, corpus, qrels);
    var sampledQids := order[..Min(nq, |order|)];
    var sampledQrels := QrelsWithQid(valid, set q | q in sampledQids);
    var allPids := Pids(sampledQrels) + extraPids;
    Sample(RowsWithId(queries, set q | q in sampledQids), RowsWithId(corpus, allPids), sampledQrels, sampledQids)
  }

  /** A sequence without repeated elements has as many elements as its set. */
  lemma {:induction false} DistinctCard(s: seq<string>)
    requires forall i, j :: 0 <= i < j < |s| ==> s[i] != s[j]
    ensures |set q | q in s| == |s|
  {
    if s != [] {
      var rest := s[1..];
      DistinctCard(rest);
      assert (set q | q in s) == {s[0]} + (set q | q in rest);
      assert s[0] !in rest;
    }
  }

  /** `sample_data` samples min(nq, number of distinct qids) queries. */
  lemma SampleSize(queries: seq<Row>, corpus: seq<Row>, qrels: seq<Qrel>, nq: nat,
                   order: seq<string>, extraPids: set<string>)
    requires IsCountOrder(order, ValidQrels(queries, corpus, qrels))
    ensures |SampleData(queries, corpus, qrels, nq, order, extraPids).qids| ==
            Min(nq, |Qids(ValidQrels(queries, corpus, qrels))|)
  {
    var valid := ValidQrels(queries, corpus, qrels);
    DistinctCard(order);
    assert (set q | q in order) == Qids(valid);
  }

  /** Every sampled query has at least as many valid qrels as any query left out. */
  lemma SampleTakesLargest(queries: seq<Row>, corpus: seq<Row>, qrels: seq<Qrel>, nq: nat,
                           order: seq<string>, extraPids: set<string>)
    requires IsCountOrder(order, ValidQrels(queries, corpus, qrels))
    ensures var qids := SampleData(queries, corpus, qrels, nq, order, extraPids).qids;
      var valid := ValidQrels(queries, corpus, qrels);
      forall q, o :: q in qids && o in Qids(valid) && o !in qids ==> Count(valid, q) >= Count(valid, o)
  {
    var valid := ValidQrels(queries, corpus, qrels);
    var qids := order[..Min(nq, |order|)];
    forall q, o | q in qids && o in Qids(valid) && o !in qids
      ensures Count(valid, q) >= Count(valid, o)
    {
      var i :| 0 <= i < |qids| && qids[i] == q;
      var k :| 0 <= k < |valid| && valid[k].qid == o;
      var j :| 0 <= j < |order| && order[j] == o;
      assert i < j;
    }
  }

  /**
   * The tables `sample_data` returns: the valid qrels join a query and a
   * passage that exist; the sampled qrels are exactly the valid qrels of
   * the sampled queries; the sampled corpus holds every passage they name;
   * and the sampled queries are the rows of the sampled qids.
   */
  lemma SampleTables(queries: seq<Row>, corpus: seq<Row>, qrels: seq<Qrel>, nq: nat,
                     order: seq<string>, extraPids: set<string>)
    requires IsCountOrder(order, ValidQrels(queries, corpus, qrels))
    ensures var smp := SampleData(queries, corpus, qrels, nq, order, extraPids);
      var valid := ValidQrels(queries, corpus, qrels);
      (forall x :: x in valid <==> x in qrels && x.qid in Ids(queries) && x.pid in Ids(corpus)) &&
      (forall x :: x in smp.qrels <==> x in valid && x.qid in smp.qids) &&
      (forall r :: r in smp.queries <==> r in queries && r.id in smp.qids)
  {
  }

  /** The sampled corpus holds every passage a sampled qrel names. */
  lemma SampleCorpusCovers(queries: seq<Row>, corpus: seq<Row>, qrels: seq<Qrel>, nq: nat,
                           order: seq<string>, extraPids: set<string>)
    requires IsCountOrder(order, ValidQrels(queries, corpus, qrels))
    ensures var smp := SampleData(queries, corpus, qrels, nq, order, extraPids);
      forall x :: x in smp.qrels ==> x.pid in Ids(smp.corpus)
  {
    var valid := ValidQrels(queries, corpus, qrels);
    var smp := SampleData(queries, corpus, qrels, nq, order, extraPids);
    forall x | x in smp.qrels
      ensures x.pid in Ids(smp.corpus)
    {
      assert x in valid;
      InPids(smp.qrels, x);
      var r := RowOf(corpus, x.pid);
      assert r in smp.corpus;
      InIds(smp.corpus, r);
    }
  }

  lemma InIds(rows: seq<Row>, r: Row)
    requires r in rows
    ensures r.id in Ids(rows)
  {
    var i :| 0 <= i < |rows| && rows[i] == r;
  }

  lemma InPids(qrels: seq<Qrel>, x: Qrel)
    requires x in qrels
    ensures x.pid in Pids(qrels)
  {
    var i :| 0 <= i < |qrels| && qrels[i] == x;
  }

  /** A row with a given id of the table. */
  lemma RowOf(rows: seq<Row>, id: string) returns (r: Row)
    requires id in Ids(rows)
    ensures r in rows && r.id == id
  {
    var i :| 0 <= i < |rows| && rows[i].id == id;
    r := rows[i];
  }

  // The answering system.

  /** `dict(zip(ids, texts))`: a later row overrides an earlier one with the same id. */
  function ToMap(rows: seq<Row>): (m: map<string, string>)
    ensures m.Keys == Ids(rows)
  {
    if rows == [] then map[]
    else
      var init := rows[..|rows| - 1];
      var m0 := ToMap(init);
      assert Ids(rows) == Ids(init) + {rows[|rows| - 1].id} by {
        assert forall k :: 0 <= k < |init| ==> init[k] == rows[k];
      }
      m0[rows[|rows| - 1].id := rows[|rows| - 1].text]
  }

  /** The text kept for an id is that of its last row. */
  lemma {:induction false} ToMapLastWins(rows: seq<Row>, k: nat)
    requires k < |rows| && forall j :: k < j < |rows| ==> rows[j].id != rows[k].id
    ensures ToMap(rows)[rows[k].id] == rows[k].text
  {
    var init := rows[..|rows| - 1];
    if k < |rows| - 1 {
      ToMapLastWins(init, k);
    }
  }

  /** `qid_to_pids[qid]`: the pids of the query's qrels, in table order. */
  function PidsOf(qrels: seq<Qrel>, qid: string): (r: seq<string>)
    ensures |r| == Count(qrels, qid)
    ensures forall p :: p in r <==> Qrel(qid, p) in qrels
  {
    if qrels == [] then []
    else (if qrels[0].qid == qid then [qrels[0].pid] else []) + PidsOf(qrels[1..], qid)
  }

  datatype QaSystem = QaSystem(qidToText: map<string, string>, pidToText: map<string, string>, qrels: seq<Qrel>)

  /** `QAAnsweringSystem.__init__` without the client. */
  function BuildSystem(queries: seq<Row>, corpus: seq<Row>, qrels: seq<Qrel>): QaSystem {
    QaSystem(ToMap(queries), ToMap(corpus), qrels)
  }

  /** The texts of the passages among `pids` that the corpus has, in order. */
  function Texts(pidToText: map<string, string>, pids: seq<string>): (r: seq<string>)
    ensures |r| <= |pids|
    ensures forall t :: t in r ==> exists p :: p in pids && p in pidToText && pidToText[p] == t
  {
    if pids == [] then []
    else (if pids[0] in pidToText then [pidToText[pids[0]]] else []) + Texts(pidToText, pids[1..])
  }

  /**
   * `get_context_for_qid`: a query without qrels raises; otherwise the texts
   * of its passages, joined by a blank line.
   */
  function GetContextForQid(sys: QaSystem, qid: string): (r: Result<string>)
    ensures r.Err? <==> qid !in Qids(sys.qrels)
  {
    if qid !in Qids(sys.qrels) then Err("ValueError: Question ID not found")
    else Ok(Join("\n\n", Texts(sys.pidToText, PidsOf(sys.qrels, qid))))
  }

  /** A non-empty separator joins to "" only nothing, or one empty part. */
  lemma {:induction false} JoinEmptyExactly(sep: string, parts: seq<string>)
    requires sep != []
    ensures Join(sep, parts) == [] <==> parts == [] || (|parts| == 1 && parts[0] == [])
  {
    if |parts| > 1 {
      assert |Join(sep, parts)| >= |sep|;
    }
  }

  /**
   * The context is empty exactly when the corpus has at most one of the
   * query's passages and that passage's text, if any, is empty.
   */
  lemma ContextEmptyIff(sys: QaSystem, qid: string)
    requires qid in Qids(sys.qrels)
    ensures var texts := Texts(sys.pidToText, PidsOf(sys.qrels, qid));
      GetContextForQid(sys, qid) == Ok("") <==> texts == [] || texts == [""]
  {
    var texts := Texts(sys.pidToText, PidsOf(sys.qrels, qid));
    JoinEmptyExactly("\n\n", texts);
  }

  /** What one call of `answer_question` does, or the exception it raises. */
  datatype Outcome = Answered(text: string) | ValueError(msg: string) | ApiError(msg: string)

  /** The guards of `answer_question` pass: the query is known and has a non-empty context. */
  predicate Answerable(sys: QaSystem, qid: string) {
    qid in sys.qidToText && qid in Qids(sys.qrels) && GetContextForQid(sys, qid) != Ok("")
  }

  /**
   * `answer_question`: an unknown query or an empty context raises
   * `ValueError` before the API is called; otherwise the reply, or the API
   * error, of the call.
   */
  function AnswerQuestion(sys: QaSystem, qid: string, reply: Result<string>): (r: Outcome)
    ensures r.ValueError? <==> !Answerable(sys, qid)
    ensures r.Answered? <==> Answerable(sys, qid) && reply.Ok?
    ensures r.Answered? ==> r.text == reply.value
  {
    if qid !in sys.qidToText then ValueError("Question ID not found")
    else match GetContextForQid(sys, qid) {
      case Err(msg) => ValueError(msg)
      case Ok(context) =>
        if context == "" then ValueError("No context found for this question")
        else match reply {
          case Err(msg) => ApiError(msg)
          case Ok(text) => Answered(text)
        }
    }
  }

  // generate_answers

  datatype AnswerRow = AnswerRow(id: int, text: string)

  datatype QaPair = QaPair(qid: string, aid: int)

  /** How the retry loop for one query ends. */
  datatype Attempted = Got(text: string, attempt: nat) | GaveUp | Raised(msg: string)

  /**
   * The retry loop of one query from attempt `attempt` on: the first
   * answered attempt, a `ValueError`, or giving up after attempt `maxRetries`.
   */
  function FirstAnswer(sys: QaSystem, qid: string, api: (string, nat) -> Result<string>,
                       maxRetries: int, attempt: nat): (r: Attempted)
    ensures r.Got? ==>
      attempt <= r.attempt <= maxRetries && api(qid, r.attempt) == Ok(r.text) && Answerable(sys, qid) &&
      (forall b :: attempt <= b < r.attempt ==> api(qid, b).Err?)
    ensures r.Raised? <==> attempt <= maxRetries && !Answerable(sys, qid)
    ensures r.GaveUp? ==> forall b :: attempt <= b <= maxRetries ==> api(qid, b).Err?
    decreases maxRetries - attempt
  {
    if attempt > maxRetries then GaveUp
    else match AnswerQuestion(sys, qid, api(qid, attempt)) {
      case Answered(text) => Got(text, attempt)
      case ValueError(msg) => Raised(msg)
      case ApiError(_) => FirstAnswer(sys, qid, api, maxRetries, attempt + 1)
    }
  }

  /**
   * The answer loop from the queries `qids` on, with the answers and pairs
   * so far: processed queries are skipped, an answer gets the next id, and a
   * `ValueError` ends the run.
   */
  function Generate(sys: QaSystem, qids: seq<string>, processed: set<string>,
                    api: (string, nat) -> Result<string>, maxRetries: int,
                    answers: seq<AnswerRow>, pairs: seq<QaPair>): (seq<AnswerRow>, seq<QaPair>, Option<string>)
    decreases |qids|
  {
    if qids == [] then (answers, pairs, None)
    else if qids[0] in processed then Generate(sys, qids[1..], processed, api, maxRetries, answers, pairs)
    else match FirstAnswer(sys, qids[0], api, maxRetries, 0) {
      case Raised(msg) => (answers, pairs, Some(msg))
      case GaveUp => Generate(sys, qids[1..], processed, api, maxRetries, answers, pairs)
      case Got(text, _) =>
        var aid := |answers| + 1;
        Generate(sys, qids[1..], processed, api, maxRetries,
          answers + [AnswerRow(aid, text)], pairs + [QaPair(qids[0], aid)])
    }
  }

  /**
   * `g` extends `answers` and `pairs`: both are kept as prefixes, one pair
   * is added per answer, the k-th answer gets id k + 1, its pair names it,
   * and it answers a query of `qids` that was not processed and could be
   * answered.
   */
  predicate Appended(g: (seq<AnswerRow>, seq<QaPair>, Option<string>), sys: QaSystem, qids: seq<string>,
                     processed: set<string>, answers: seq<AnswerRow>, pairs: seq<QaPair>) {
    |g.0| >= |answers| && |g.1| >= |pairs| && |g.0| - |answers| == |g.1| - |pairs| &&
    g.0[..|answers|] == answers && g.1[..|pairs|] == pairs &&
    forall k :: |answers| <= k < |g.0| ==>
      g.0[k].id == k + 1 && g.1[|pairs| + k - |answers|].aid == k + 1 &&
      g.1[|pairs| + k - |answers|].qid in qids && g.1[|pairs| + k - |answers|].qid !in processed &&
      Answerable(sys, g.1[|pairs| + k - |answers|].qid)
  }

  lemma AppendedNothing(g: (seq<AnswerRow>, seq<QaPair>, Option<string>), sys: QaSystem, qids: seq<string>,
                        processed: set<string>, answers: seq<AnswerRow>, pairs: seq<QaPair>)
    requires g.0 == answers && g.1 == pairs
    ensures Appended(g, sys, qids, processed, answers, pairs)
  {
    assert answers[..|answers|] == answers && pairs[..|pairs|] == pairs;
  }

  lemma AppendedWiden(g: (seq<AnswerRow>, seq<QaPair>, Option<string>), sys: QaSystem, qids: seq<string>,
                      processed: set<string>, answers: seq<AnswerRow>, pairs: seq<QaPair>)
    requires qids != [] && Appended(g, sys, qids[1..], processed, answers, pairs)
    ensures Appended(g, sys, qids, processed, answers, pairs)
  {
    assert forall q :: q in qids[1..] ==> q in qids;
    forall k | |answers| <= k < |g.0|
      ensures g.0[k].id == k + 1 && g.1[|pairs| + k - |answers|].aid == k + 1
      ensures g.1[|pairs| + k - |answers|].qid in qids && g.1[|pairs| + k - |answers|].qid !in processed
      ensures Answerable(sys, g.1[|pairs| + k - |answers|].qid)
    {
      assert g.0[k].id == k + 1;
      assert g.1[|pairs| + k - |answers|].qid in qids[1..];
    }
  }

  lemma PrefixShrink<T>(s: seq<T>, p: seq<T>, x: T)
    requires |s| > |p| && s[..|p| + 1] == p + [x]
    ensures s[..|p|] == p && s[|p|] == x
  {
    assert s[..|p|] == s[..|p| + 1][..|p|];
  }

  /** An answer to the first query, followed by what the rest of the queries appended. */
  lemma AppendedCons(g: (seq<AnswerRow>, seq<QaPair>, Option<string>), sys: QaSystem, qids: seq<string>,
                     processed: set<string>, answers: seq<AnswerRow>, pairs: seq<QaPair>, text: string)
    requires qids != [] && qids[0] !in processed && Answerable(sys, qids[0])
    requires Appended(g, sys, qids[1..], processed, answers + [AnswerRow(|answers| + 1, text)],
                      pairs + [QaPair(qids[0], |answers| + 1)])
    ensures Appended(g, sys, qids, processed, answers, pairs)
  {
    PrefixShrink(g.0, answers, AnswerRow(|answers| + 1, text));
    PrefixShrink(g.1, pairs, QaPair(qids[0], |answers| + 1));
    assert forall q :: q in qids[1..] ==> q in qids;
    forall k | |answers| < k < |g.0|
      ensures g.0[k].id == k + 1 && g.1[|pairs| + k - |answers|].aid == k + 1
      ensures g.1[|pairs| + k - |answers|].qid in qids && g.1[|pairs| + k - |answers|].qid !in processed
      ensures Answerable(sys, g.1[|pairs| + k - |answers|].qid)
    {
      assert g.0[k].id == k + 1;
      assert g.1[|pairs| + k - |answers|].qid in qids[1..];
    }
  }

  /** The answer loop only appends, as `Appended` states. */
  lemma {:induction false} GenerateAppends(sys: QaSystem, qids: seq<string>, processed: set<string>,
                                           api: (string, nat) -> Result<string>, maxRetries: int,
                                           answers: seq<AnswerRow>, pairs: seq<QaPair>)
    ensures Appended(Generate(sys, qids, processed, api, maxRetries, answers, pairs), sys, qids, processed, answers, pairs)
    decreases |qids|
  {
    var g := Generate(sys, qids, processed, api, maxRetries, answers, pairs);
    if qids == [] {
      AppendedNothing(g, sys, qids, processed, answers, pairs);
    } else if qids[0] in processed {
      GenerateAppends(sys, qids[1..], processed, api, maxRetries, answers, pairs);
      AppendedWiden(g, sys, qids, processed, answers, pairs);
    } else {
      match FirstAnswer(sys, qids[0], api, maxRetries, 0) {
        case Raised(_) =>
          AppendedNothing(g, sys, qids, processed, answers, pairs);
        case GaveUp =>
          GenerateAppends(sys, qids[1..], processed, api, maxRetries, answers, pairs);
          AppendedWiden(g, sys, qids, processed, answers, pairs);
        case Got(text, _) =>
          var aid := |answers| + 1;
          GenerateAppends(sys, qids[1..], processed, api, maxRetries, answers + [AnswerRow(aid, text)],
                          pairs + [QaPair(qids[0], aid)]);
          AppendedCons(g, sys, qids, processed, answers, pairs, text);
      }
    }
  }

  /**
   * The position of the first query that was not processed and whose
   * attempts raise, or `|qids|` when there is none: where the run stops.
   */
  function StopAt(sys: QaSystem, qids: seq<string>, processed: set<string>,
                  api: (string, nat) -> Result<string>, maxRetries: int): (n: nat)
    ensures n <= |qids|
  {
    if qids == [] then 0
    else if qids[0] !in processed && FirstAnswer(sys, qids[0], api, maxRetries, 0).Raised? then 0
    else 1 + StopAt(sys, qids[1..], processed, api, maxRetries)
  }

  /** The queries of `qids` that were not processed and got an answer, each with its reply's text, in order. */
  function GotList(sys: QaSystem, qids: seq<string>, processed: set<string>,
                   api: (string, nat) -> Result<string>, maxRetries: int): seq<(string, string)>
  {
    if qids == [] then []
    else
      var r := FirstAnswer(sys, qids[0], api, maxRetries, 0);
      (if qids[0] !in processed && r.Got? then [(qids[0], r.text)] else [])
      + GotList(sys, qids[1..], processed, api, maxRetries)
  }

  /**
   * `g` extends `answers` and `pairs` by one answer per entry of `got`, in
   * order: the pair names the entry's query and the answer holds its text.
   */
  predicate AppendsExactly(g: (seq<AnswerRow>, seq<QaPair>, Option<string>), answers: seq<AnswerRow>,
                           pairs: seq<QaPair>, got: seq<(string, string)>) {
    && |g.0| == |answers| + |got| && |g.1| == |pairs| + |got|
    && g.0[..|answers|] == answers && g.1[..|pairs|] == pairs
    && forall j :: 0 <= j < |got| ==> g.1[|pairs| + j].qid == got[j].0 && g.0[|answers| + j].text == got[j].1
  }

  /** What was appended after one more answer is, seen from before it, that answer followed by the rest. */
  lemma AppendsExactlyCons(g: (seq<AnswerRow>, seq<QaPair>, Option<string>), answers: seq<AnswerRow>,
                           pairs: seq<QaPair>, qid: string, text: string, got: seq<(string, string)>)
    requires AppendsExactly(g, answers + [AnswerRow(|answers| + 1, text)], pairs + [QaPair(qid, |answers| + 1)], got)
    ensures AppendsExactly(g, answers, pairs, [(qid, text)] + got)
  {
    var pairs' := pairs + [QaPair(qid, |answers| + 1)];
    PrefixShrink(g.0, answers, AnswerRow(|answers| + 1, text));
    PrefixShrink(g.1, pairs, QaPair(qid, |answers| + 1));
    var all := [(qid, text)] + got;
    forall j | 0 <= j < |all|
      ensures g.1[|pairs| + j].qid == all[j].0 && g.0[|answers| + j].text == all[j].1
    {
      if j > 0 {
        assert g.1[|pairs| + j] == g.1[|pairs'| + (j - 1)] && all[j] == got[j - 1];
      }
    }
  }

  /**
   * The answer loop answers exactly the queries before the stop that were
   * not processed and got a reply, once each, in order, with that reply's
   * text; it ends with an error exactly when it stopped before the end.
   */
  lemma {:induction false} GenerateAnswersExactly(sys: QaSystem, qids: seq<string>, processed: set<string>,
                                                  api: (string, nat) -> Result<string>, maxRetries: int,
                                                  answers: seq<AnswerRow>, pairs: seq<QaPair>)
    ensures AppendsExactly(Generate(sys, qids, processed, api, maxRetries, answers, pairs), answers, pairs,
                           GotList(sys, qids[..StopAt(sys, qids, processed, api, maxRetries)], processed, api, maxRetries))
    ensures Generate(sys, qids, processed, api, maxRetries, answers, pairs).2.None? <==>
      StopAt(sys, qids, processed, api, maxRetries) == |qids|
    decreases |qids|
  {
    var g := Generate(sys, qids, processed, api, maxRetries, answers, pairs);
    if qids == [] {
      assert answers[..|answers|] == answers && pairs[..|pairs|] == pairs;
    } else {
      var rest := qids[1..];
      var r := FirstAnswer(sys, qids[0], api, maxRetries, 0);
      var n := StopAt(sys, qids, processed, api, maxRetries);
      if qids[0] !in processed && r.Raised? {
        assert qids[..n] == [];
        assert answers[..|answers|] == answers && pairs[..|pairs|] == pairs;
      } else {
        var n' := StopAt(sys, rest, processed, api, maxRetries);
        assert qids[..n][1..] == rest[..n'] && qids[..n][0] == qids[0];
        if qids[0] in processed || r.GaveUp? {
          GenerateAnswersExactly(sys, rest, processed, api, maxRetries, answers, pairs);
        } else {
          var aid := |answers| + 1;
          GenerateAnswersExactly(sys, rest, processed, api, maxRetries,
            answers + [AnswerRow(aid, r.text)], pairs + [QaPair(qids[0], aid)]);
          AppendsExactlyCons(g, answers, pairs, qids[0], r.text, GotList(sys, rest[..n'], processed, api, maxRetries));
        }
      }
    }
  }

  /** A run that ends without an error answers every query that was not processed and got a reply. */
  lemma GenerateWithoutError(sys: QaSystem, qids: seq<string>, processed: set<string>,
                             api: (string, nat) -> Result<string>, maxRetries: int,
                             answers: seq<AnswerRow>, pairs: seq<QaPair>)
    requires Generate(sys, qids, processed, api, maxRetries, answers, pairs).2.None?
    ensures AppendsExactly(Generate(sys, qids, processed, api, maxRetries, answers, pairs), answers, pairs,
                           GotList(sys, qids, processed, api, maxRetries))
  {
    GenerateAnswersExactly(sys, qids, processed, api, maxRetries, answers, pairs);
    assert qids[..|qids|] == qids;
  }

  /**
   * The run ends with an error exactly when some query that was not
   * processed comes before any error and cannot be answered (it is unknown
   * or has an empty context); `maxRetries < 0` makes no attempt at all.
   */
  lemma {:induction false} GenerateRaises(sys: QaSystem, qids: seq<string>, processed: set<string>,
                                          api: (string, nat) -> Result<string>, maxRetries: int,
                                          answers: seq<AnswerRow>, pairs: seq<QaPair>)
    ensures Generate(sys, qids, processed, api, maxRetries, answers, pairs).2.Some? <==>
      0 <= maxRetries && exists k :: 0 <= k < |qids| && qids[k] !in processed && !Answerable(sys, qids[k])
    decreases |qids|
  {
    if qids != [] {
      var rest := qids[1..];
      var r := FirstAnswer(sys, qids[0], api, maxRetries, 0);
      if qids[0] !in processed && r.Raised? {
        assert 0 <= maxRetries && qids[0] !in processed && !Answerable(sys, qids[0]);
      } else {
        var aid := |answers| + 1;
        if qids[0] in processed || r.GaveUp? {
          GenerateRaises(sys, rest, processed, api, maxRetries, answers, pairs);
        } else {
          GenerateRaises(sys, rest, processed, api, maxRetries,
            answers + [AnswerRow(aid, r.text)], pairs + [QaPair(qids[0], aid)]);
        }
        assert (0 <= maxRetries && exists k :: 0 <= k < |qids| && qids[k] !in processed && !Answerable(sys, qids[k])) <==>
               (0 <= maxRetries && exists k :: 0 <= k < |rest| && rest[k] !in processed && !Answerable(sys, rest[k])) by {
          if 0 <= maxRetries && exists k :: 0 <= k < |qids| && qids[k] !in processed && !Answerable(sys, qids[k]) {
            var k :| 0 <= k < |qids| && qids[k] !in processed && !Answerable(sys, qids[k]);
            if k != 0 {
              assert rest[k - 1] == qids[k];
            }
          }
          if exists k :: 0 <= k < |rest| && rest[k] !in processed && !Answerable(sys, rest[k]) {
            var k :| 0 <= k < |rest| && rest[k] !in processed && !Answerable(sys, rest[k]);
            assert qids[k + 1] == rest[k];
          }
        }
      }
    }
  }

  function QueryIds(queries: seq<Row>): (r: seq<string>)
    ensures |r| == |queries| && forall k :: 0 <= k < |queries| ==> r[k] == queries[k].id
  {
    if queries == [] then [] else [queries[0].id] + QueryIds(queries[1..])
  }

  /**
   * `generate_answers`: for each query not already answered, up to
   * `maxRetries + 1` attempts; each answer is appended with the next id,
   * starting from the number of existing answers plus one. A `ValueError`
   * from `answer_question` is not caught and ends the run (`raised`); what
   * was answered before it has been saved.
   */
  method GenerateAnswers(queries: seq<Row>, corpus: seq<Row>, qrels: seq<Qrel>,
                         existingAnswers: seq<AnswerRow>, existingPairs: seq<QaPair>,
                         api: (string, nat) -> Result<string>, maxRetries: int)
    returns (answers: seq<AnswerRow>, pairs: seq<QaPair>, raised: Option<string>)
    ensures var processed := set k | 0 <= k < |existingPairs| :: existingPairs[k].qid;
      (answers, pairs, raised) ==
        Generate(BuildSystem(queries, corpus, qrels), QueryIds(queries), processed, api, maxRetries,
                 existingAnswers, existingPairs)
  {
    var sys := BuildSystem(queries, corpus, qrels);
    var processed := set k | 0 <= k < |existingPairs| :: existingPairs[k].qid;
    var qids := QueryIds(queries);
    ghost var spec := Generate(sys, qids, processed, api, maxRetries, existingAnswers, existingPairs);
    answers := existingAnswers;
    pairs := existingPairs;
    var counter := |answers| + 1;
    var i := 0;
    while i < |qids|
      invariant 0 <= i <= |qids|
      invariant counter == |answers| + 1
      invariant Generate(sys, qids[i..], processed, api, maxRetries, answers, pairs) == spec
    {
      var qid := qids[i];
      assert qids[i..][0] == qid && qids[i..][1..] == qids[i + 1..];
      if qid in processed {
        i := i + 1;
        continue;
      }
      var retry := 0;
      while retry <= maxRetries
        invariant 0 <= retry && (retry <= maxRetries + 1 || maxRetries < 0)
        invariant FirstAnswer(sys, qid, api, maxRetries, retry) == FirstAnswer(sys, qid, api, maxRetries, 0)
        decreases maxRetries - retry
      {
        var outcome := AnswerQuestion(sys, qid, api(qid, retry));
        if outcome.ValueError? {
          return answers, pairs, Some(outcome.msg);
        }
        if outcome.Answered? {
          var aid := counter;
          answers := answers + [AnswerRow(aid, outcome.text)];
          pairs := pairs + [QaPair(qid, aid)];
          counter := counter + 1;
          break;
        }
        retry := retry + 1;
      }
      i := i + 1;
    }
    raised := None;
  }
}
