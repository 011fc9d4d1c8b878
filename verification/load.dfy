/** The load stage (DAG.py:141-223) without its network client: the index is
    ensured with a fixed mapping, every row of the clean table becomes one
    bulk action keyed by its 1-based position, and the bulk write is an
    upsert by key into an in-memory picture of the search cluster. */
module Load {
  import opened Results
  import opened Tables
  import opened Cleaning
  import opened Duplicates

  // ---------------------------------------------------------------------------
  // The index and its mapping
  // ---------------------------------------------------------------------------

  const IndexName := "music_streaming_data"

  datatype FieldType = Integer | Keyword | Float

  /** The field types the index is created with. */
  const Mapping: map<string, FieldType> := map[
    "age" := Integer,
    "country" := Keyword,
    "streaming_platform" := Keyword,
    "top_genre" := Keyword,
    "minutes_streamed_per_day" := Integer,
    "number_of_songs_liked" := Integer,
    "most_played_artist" := Keyword,
    "subscription_type" := Keyword,
    "listening_time" := Keyword,
    "discover_engagement" := Float,
    "repeat_rate" := Float,
    "age_group" := Keyword,
    "region" := Keyword
  ]

  /** The mapping agrees with the transform: the integer casts land in
      integer fields, the float casts in float fields, and both derived
      fields are keywords. */
  lemma MappingMatchesCasts()
    ensures forall k :: 0 <= k < |IntColumns| ==> IntColumns[k] in Mapping && Mapping[IntColumns[k]] == Integer
    ensures forall k :: 0 <= k < |FloatColumns| ==> FloatColumns[k] in Mapping && Mapping[FloatColumns[k]] == Float
    ensures Mapping[AgeGroupName] == Keyword && Mapping[RegionName] == Keyword
  {
  }

  // ---------------------------------------------------------------------------
  // Documents and bulk actions
  // ---------------------------------------------------------------------------

  type Doc = map<string, Cell>

  /** No later label equals label `k`. */
  ghost predicate LastOccurrence(names: seq<string>, k: nat)
    requires k < |names|
  {
    forall m :: k < m < |names| ==> names[m] != names[k]
  }

  /** The last position holding label `x`. */
  function LastIndex(names: seq<string>, x: string): (r: nat)
    requires x in names
    ensures r < |names| && names[r] == x
    ensures forall m :: r < m < |names| ==> names[m] != x
  {
    var n := |names| - 1;
    if names[n] == x then n
    else
      assert x in names[..n] by {
        var k :| 0 <= k < |names| && names[k] == x;
        assert names[..n][k] == x;
      }
      LastIndex(names[..n], x)
  }

  /** `row.to_dict()`: one entry per label; of two equal labels the later
      column wins, as a dictionary built in column order does. */
  function RowDoc(names: seq<string>, row: seq<Cell>): (r: Doc)
    requires |names| == |row|
    ensures forall n :: n in r <==> n in names
    ensures forall k :: 0 <= k < |names| && LastOccurrence(names, k) ==> r[names[k]] == row[k]
  {
    var r := map x | x in names :: row[LastIndex(names, x)];
    assert forall k :: 0 <= k < |names| && LastOccurrence(names, k) ==> LastIndex(names, names[k]) == k;
    r
  }

  /** With distinct labels the document gives the row back, cell for cell. */
  lemma RowDocRoundTrip(names: seq<string>, row: seq<Cell>)
    requires |names| == |row| && Distinct(names)
    ensures seq(|names|, k requires 0 <= k < |names| => RowDoc(names, row)[names[k]]) == row
  {
    var back := seq(|names|, k requires 0 <= k < |names| => RowDoc(names, row)[names[k]]);
    forall k | 0 <= k < |names| ensures back[k] == row[k] {
      assert LastOccurrence(names, k) by {
        forall m | k < m < |names| ensures names[m] != names[k] {
          assert names[k] != names[m];
        }
      }
      assert back[k] == RowDoc(names, row)[names[k]];
    }
  }

  datatype Action = Action(index: string, id: nat, source: Doc)

  /** The document of every row, in row order. */
  function Documents(t: Table): (r: seq<Doc>)
    requires Valid(t)
    ensures |r| == t.height
    ensures forall i :: 0 <= i < t.height ==> r[i] == RowDoc(Names(t.columns), Row(t, i))
  {
    seq(t.height, i requires 0 <= i < t.height => RowDoc(Names(t.columns), Row(t, i)))
  }

  /** One index action per document; the key of document `i` is `i + 1`. */
  function IndexActions(docs: seq<Doc>): (r: seq<Action>)
    ensures |r| == |docs|
    ensures forall i :: 0 <= i < |r| ==> r[i] == Action(IndexName, i + 1, docs[i])
  {
    seq(|docs|, i requires 0 <= i < |docs| => Action(IndexName, i + 1, docs[i]))
  }

  /** The bulk actions of a table. */
  function BuildActions(t: Table): seq<Action>
    requires Valid(t)
  {
    IndexActions(Documents(t))
  }

  /** The keys 1..n. */
  function KeyRange(n: nat): (r: set<nat>)
    ensures forall k :: k in r <==> 1 <= k <= n
    ensures |r| == n
  {
    if n == 0 then {} else KeyRange(n - 1) + {n}
  }

  /** The keys a run of actions uses. */
  function Keys(actions: seq<Action>): (r: set<nat>)
    ensures forall i :: 0 <= i < |actions| ==> actions[i].id in r
    ensures forall k :: k in r ==> exists i :: 0 <= i < |actions| && actions[i].id == k
  {
    set i | 0 <= i < |actions| :: actions[i].id
  }

  /** Actions numbered 1..n in order use exactly the keys 1..n. */
  lemma NumberedKeys(actions: seq<Action>)
    requires forall i :: 0 <= i < |actions| ==> actions[i].id == i + 1
    ensures Keys(actions) == KeyRange(|actions|)
  {
    var K := Keys(actions);
    forall k | k in KeyRange(|actions|) ensures k in K {
      assert actions[k - 1].id == k;
    }
  }

  /** The keys are exactly 1..n, each used once, whatever the documents hold. */
  lemma IndexActionsKeys(docs: seq<Doc>)
    ensures Keys(IndexActions(docs)) == KeyRange(|docs|)
    ensures forall i, j :: 0 <= i < j < |docs| ==> IndexActions(docs)[i].id != IndexActions(docs)[j].id
  {
    NumberedKeys(IndexActions(docs));
  }

  /** The keys depend on the row count alone: two tables of the same height
      are written under the same keys, whatever their rows hold. */
  lemma BuildActionsKeysStable(t1: Table, t2: Table)
    requires Valid(t1) && Valid(t2) && t1.height == t2.height
    ensures forall i :: 0 <= i < t1.height ==> BuildActions(t1)[i].id == BuildActions(t2)[i].id == i + 1
  {
  }

  // ---------------------------------------------------------------------------
  // The cluster
  // ---------------------------------------------------------------------------

  datatype Index = Index(mapping: map<string, FieldType>, docs: map<nat, Doc>)

  type Cluster = map<string, Index>

  /** `indices.exists` / `indices.create`: create the index with the mapping
      when it is absent, leave an existing index alone. */
  function EnsureIndex(c: Cluster, name: string, mapping: map<string, FieldType>): (r: Cluster)
    ensures name in r && r.Keys == c.Keys + {name}
    ensures name in c ==> r == c
    ensures name !in c ==> r[name] == Index(mapping, map[])
    ensures forall n :: n in c ==> r[n] == c[n]
  {
    if name in c then c else c[name := Index(mapping, map[])]
  }

  /** Ensuring an index a second time changes nothing. */
  lemma EnsureIndexIdempotent(c: Cluster, name: string, mapping: map<string, FieldType>)
    ensures EnsureIndex(EnsureIndex(c, name, mapping), name, mapping) == EnsureIndex(c, name, mapping)
  {
  }

  /** One index action: the document under `id` is created or replaced. An
      action on an absent index creates it without a mapping. */
  function Put(c: Cluster, a: Action): (r: Cluster)
    ensures r.Keys == c.Keys + {a.index}
    ensures r[a.index].docs == (if a.index in c then c[a.index].docs else map[])[a.id := a.source]
    ensures a.index in c ==> r[a.index].mapping == c[a.index].mapping
    ensures forall n :: n in c && n != a.index ==> r[n] == c[n]
  {
    var idx := if a.index in c then c[a.index] else Index(map[], map[]);
    c[a.index := idx.(docs := idx.docs[a.id := a.source])]
  }

  /** `helpers.bulk`: the actions in order. */
  function ApplyBulk(c: Cluster, actions: seq<Action>): (r: Cluster)
    ensures c.Keys <= r.Keys
  {
    if |actions| == 0 then c
    else Put(ApplyBulk(c, actions[..|actions| - 1]), actions[|actions| - 1])
  }

  /** The indices a run of actions names. */
  function Targets(actions: seq<Action>): (r: set<string>)
    ensures forall i :: 0 <= i < |actions| ==> actions[i].index in r
    ensures forall n :: n in r ==> exists i :: 0 <= i < |actions| && actions[i].index == n
  {
    set i | 0 <= i < |actions| :: actions[i].index
  }

  /** The indices of a run are those of all but its last action, plus the last. */
  lemma TargetsLast(actions: seq<Action>)
    requires |actions| > 0
    ensures Targets(actions) == Targets(actions[..|actions| - 1]) + {actions[|actions| - 1].index}
  {
    var m := |actions| - 1;
    var init := actions[..m];
    assert forall i :: 0 <= i < m ==> init[i] == actions[i];
    forall n | n in Targets(actions) ensures n in Targets(init) + {actions[m].index} {
      var i :| 0 <= i < |actions| && actions[i].index == n;
      if i < m {
        assert init[i].index == n;
      }
    }
  }

  /** A bulk request adds exactly the indices its actions name and leaves
      every index it does not name as it was. */
  lemma {:induction false} ApplyBulkTouches(c: Cluster, actions: seq<Action>)
    ensures ApplyBulk(c, actions).Keys == c.Keys + Targets(actions)
    ensures forall n :: n in c && n !in Targets(actions) ==> ApplyBulk(c, actions)[n] == c[n]
  {
    if |actions| > 0 {
      var m := |actions| - 1;
      var init := actions[..m];
      ApplyBulkTouches(c, init);
      TargetsLast(actions);
      assert ApplyBulk(c, actions) == Put(ApplyBulk(c, init), actions[m]);
    }
  }

  /** The documents a run of actions writes, the last write to a key winning. */
  function Written(actions: seq<Action>): map<nat, Doc>
  {
    if |actions| == 0 then map[]
    else
      var n := |actions| - 1;
      Written(actions[..n])[actions[n].id := actions[n].source]
  }

  /** The keys of a run are those of all but its last action, plus the last. */
  lemma KeysLast(actions: seq<Action>)
    requires |actions| > 0
    ensures Keys(actions) == Keys(actions[..|actions| - 1]) + {actions[|actions| - 1].id}
  {
    var m := |actions| - 1;
    var init := actions[..m];
    assert forall i :: 0 <= i < m ==> init[i] == actions[i];
    forall k | k in Keys(actions) ensures k in Keys(init) + {actions[m].id} {
      var i :| 0 <= i < |actions| && actions[i].id == k;
      if i < m {
        assert init[i].id == k;
      }
    }
  }

  /** The documents a bulk request writes are keyed by exactly the keys of
      its actions. */
  lemma {:induction false} WrittenKeys(actions: seq<Action>)
    ensures Written(actions).Keys == Keys(actions)
  {
    if |actions| > 0 {
      var n := |actions| - 1;
      var init := actions[..n];
      WrittenKeys(init);
      KeysLast(actions);
      assert Written(actions) == Written(init)[actions[n].id := actions[n].source];
    }
  }

  /** With distinct keys every action's document is the one written. */
  lemma {:induction false} WrittenDistinct(actions: seq<Action>)
    requires forall i, j :: 0 <= i < j < |actions| ==> actions[i].id != actions[j].id
    ensures forall i :: 0 <= i < |actions| ==>
      actions[i].id in Written(actions) && Written(actions)[actions[i].id] == actions[i].source
  {
    if |actions| > 0 {
      var n := |actions| - 1;
      WrittenDistinct(actions[..n]);
      assert forall i :: 0 <= i < n ==> actions[..n][i] == actions[i];
    }
  }

  /** The index `name` with `docs` laid over its documents. */
  function Overlay(c: Cluster, name: string, docs: map<nat, Doc>): Cluster
    requires name in c
  {
    c[name := c[name].(docs := c[name].docs + docs)]
  }

  lemma OverlayPut(c: Cluster, name: string, docs: map<nat, Doc>, a: Action)
    requires name in c && a.index == name
    ensures Put(Overlay(c, name, docs), a) == Overlay(c, name, docs[a.id := a.source])
  {
    assert (c[name].docs + docs)[a.id := a.source] == c[name].docs + docs[a.id := a.source];
  }

  /** A bulk write into one existing index is an overlay of the written
      documents on the ones already there; nothing else changes. */
  lemma {:induction false} ApplyBulkOverlay(c: Cluster, name: string, actions: seq<Action>)
    requires name in c
    requires forall i :: 0 <= i < |actions| ==> actions[i].index == name
    ensures ApplyBulk(c, actions) == Overlay(c, name, Written(actions))
  {
    if |actions| == 0 {
      assert c[name].docs + map[] == c[name].docs;
    } else {
      var n := |actions| - 1;
      assert forall i :: 0 <= i < n ==> actions[..n][i] == actions[i];
      ApplyBulkOverlay(c, name, actions[..n]);
      OverlayPut(c, name, Written(actions[..n]), actions[n]);
    }
  }

  /** Repeating a bulk write into one index changes nothing: upsert, not append. */
  lemma ApplyBulkIdempotent(c: Cluster, name: string, actions: seq<Action>)
    requires name in c
    requires forall i :: 0 <= i < |actions| ==> actions[i].index == name
    ensures ApplyBulk(ApplyBulk(c, actions), actions) == ApplyBulk(c, actions)
  {
    ApplyBulkOverlay(c, name, actions);
    var once := ApplyBulk(c, actions);
    ApplyBulkOverlay(once, name, actions);
    assert (c[name].docs + Written(actions)) + Written(actions) == c[name].docs + Written(actions);
  }

  // ---------------------------------------------------------------------------
  // The load
  // ---------------------------------------------------------------------------

  /** A run of index actions writes exactly the keys 1..n. */
  lemma WrittenIndexActionsKeys(docs: seq<Doc>)
    ensures Written(IndexActions(docs)).Keys == KeyRange(|docs|)
  {
    WrittenKeys(IndexActions(docs));
    IndexActionsKeys(docs);
  }

  /** Actions numbered 1..n in order leave action `k - 1`'s document under key `k`. */
  lemma {:induction false} NumberedWritten(actions: seq<Action>)
    requires forall i :: 0 <= i < |actions| ==> actions[i].id == i + 1
    ensures forall k :: 1 <= k <= |actions| ==> k in Written(actions) && Written(actions)[k] == actions[k - 1].source
  {
    if |actions| > 0 {
      var n := |actions| - 1;
      var init := actions[..n];
      assert forall i :: 0 <= i < n ==> init[i] == actions[i];
      NumberedWritten(init);
      var w := Written(init);
      assert Written(actions) == w[n + 1 := actions[n].source];
      forall k | 1 <= k <= n ensures k in Written(actions) && Written(actions)[k] == actions[k - 1].source {
        assert k in w && w[k] == init[k - 1].source;
      }
    }
  }

  /** A run of index actions writes document `k - 1` under key `k`. */
  lemma WrittenIndexActions(docs: seq<Doc>)
    ensures forall k :: 1 <= k <= |docs| ==>
      k in Written(IndexActions(docs)) && Written(IndexActions(docs))[k] == docs[k - 1]
  {
    var actions := IndexActions(docs);
    NumberedWritten(actions);
    forall k | 1 <= k <= |docs| ensures Written(actions)[k] == docs[k - 1] {
      assert actions[k - 1].source == docs[k - 1];
    }
  }

  /** Ensure the index, then send one index action per document. */
  function LoadDocs(c: Cluster, docs: seq<Doc>): (r: Cluster)
    ensures IndexName in r && r.Keys == c.Keys + {IndexName}
    ensures forall n :: n in c && n != IndexName ==> r[n] == c[n]
  {
    var ensured := EnsureIndex(c, IndexName, Mapping);
    ApplyBulkOverlay(ensured, IndexName, IndexActions(docs));
    ApplyBulk(ensured, IndexActions(docs))
  }

  /** A load overlays the written documents on the ensured index and keeps
      its mapping. */
  lemma LoadDocsOverlay(c: Cluster, docs: seq<Doc>)
    ensures var ensured := EnsureIndex(c, IndexName, Mapping);
      LoadDocs(c, docs)[IndexName] ==
        ensured[IndexName].(docs := ensured[IndexName].docs + Written(IndexActions(docs)))
  {
    ApplyBulkOverlay(EnsureIndex(c, IndexName, Mapping), IndexName, IndexActions(docs));
  }

  /** After a load the index holds every earlier document plus the keys
      1..n, and keeps its mapping; a fresh index gets the fixed mapping. */
  lemma LoadDocsKeys(c: Cluster, docs: seq<Doc>)
    ensures LoadDocs(c, docs)[IndexName].docs.Keys ==
            (if IndexName in c then c[IndexName].docs.Keys else {}) + KeyRange(|docs|)
    ensures IndexName !in c ==> LoadDocs(c, docs)[IndexName].mapping == Mapping
    ensures IndexName in c ==> LoadDocs(c, docs)[IndexName].mapping == c[IndexName].mapping
  {
    var ensured := EnsureIndex(c, IndexName, Mapping);
    var w := Written(IndexActions(docs));
    var before := ensured[IndexName].docs;
    LoadDocsOverlay(c, docs);
    var m := LoadDocs(c, docs)[IndexName];
    assert m.docs == before + w && m.mapping == ensured[IndexName].mapping;
    WrittenIndexActionsKeys(docs);
    OverlayKeys(before, w);
    assert before.Keys == (if IndexName in c then c[IndexName].docs.Keys else {});
  }

  /** The keys of an overlay are the keys of both layers. */
  lemma OverlayKeys(before: map<nat, Doc>, w: map<nat, Doc>)
    ensures (before + w).Keys == before.Keys + w.Keys
  {
  }

  /** Documents laid over others replace them key by key. */
  lemma OverlayKeeps(before: map<nat, Doc>, w: map<nat, Doc>, docs: seq<Doc>)
    requires forall k :: 1 <= k <= |docs| ==> k in w && w[k] == docs[k - 1]
    ensures forall k :: 1 <= k <= |docs| ==> k in before + w && (before + w)[k] == docs[k - 1]
  {
  }

  /** After a load key `k` holds document `k - 1`, whatever was there before. */
  lemma LoadDocsContents(c: Cluster, docs: seq<Doc>)
    ensures forall k :: 1 <= k <= |docs| ==>
      k in LoadDocs(c, docs)[IndexName].docs && LoadDocs(c, docs)[IndexName].docs[k] == docs[k - 1]
  {
    LoadDocsOverlay(c, docs);
    WrittenIndexActions(docs);
    OverlayKeeps(EnsureIndex(c, IndexName, Mapping)[IndexName].docs, Written(IndexActions(docs)), docs);
  }

  /** Loading the same documents twice leaves the cluster as one load left
      it: an upsert by key, not an append. */
  lemma LoadDocsIdempotent(c: Cluster, docs: seq<Doc>)
    ensures LoadDocs(LoadDocs(c, docs), docs) == LoadDocs(c, docs)
  {
    var once := LoadDocs(c, docs);
    var ensured := EnsureIndex(c, IndexName, Mapping);
    assert EnsureIndex(once, IndexName, Mapping) == once;
    ApplyBulkIdempotent(ensured, IndexName, IndexActions(docs));
  }

  /** The load of a table: its row documents. */
  function LoadTable(c: Cluster, t: Table): (r: Cluster)
    requires Valid(t)
    ensures IndexName in r && r.Keys == c.Keys + {IndexName}
    ensures forall n :: n in c && n != IndexName ==> r[n] == c[n]
    ensures r[IndexName].mapping == if IndexName in c then c[IndexName].mapping else Mapping
  {
    LoadDocsOverlay(c, Documents(t));
    LoadDocs(c, Documents(t))
  }

  /** After loading a table, key `k` holds row `k - 1` as a document. */
  lemma LoadTableContents(c: Cluster, t: Table)
    requires Valid(t)
    ensures forall k :: 1 <= k <= t.height ==>
      k in LoadTable(c, t)[IndexName].docs &&
      LoadTable(c, t)[IndexName].docs[k] == RowDoc(Names(t.columns), Row(t, k - 1))
  {
    var docs := Documents(t);
    LoadDocsContents(c, docs);
    assert LoadTable(c, t) == LoadDocs(c, docs);
    forall k | 1 <= k <= t.height
      ensures k in LoadTable(c, t)[IndexName].docs
      ensures LoadTable(c, t)[IndexName].docs[k] == RowDoc(Names(t.columns), Row(t, k - 1))
    {
      assert docs[k - 1] == RowDoc(Names(t.columns), Row(t, k - 1));
    }
  }

  /** Into a fresh index the load writes exactly one document per row, and
      a second load of the same table adds none. */
  lemma LoadTableCount(c: Cluster, t: Table)
    requires Valid(t) && IndexName !in c
    ensures |LoadTable(c, t)[IndexName].docs| == t.height
    ensures |LoadTable(LoadTable(c, t), t)[IndexName].docs| == t.height
  {
    var docs := Documents(t);
    LoadDocsKeys(c, docs);
    var m := LoadDocs(c, docs)[IndexName].docs;
    assert m.Keys == KeyRange(t.height);
    assert |m| == |m.Keys|;
    LoadDocsIdempotent(c, docs);
  }

  // ---------------------------------------------------------------------------
  // A run
  // ---------------------------------------------------------------------------

  /** The last state a run reached. */
  datatype Stage = Extracted | Transformed | Loaded

  datatype Outcome = Outcome(cluster: Cluster, reached: Stage, failure: Option<Error>)

  /** Transform the extracted table, then load it; a failing transform
      stops the run before anything is written. */
  function Run(c: Cluster, staged: Table): (r: Outcome)
    requires Staged(staged)
    ensures r.reached == Loaded <==> Transform(staged).Ok?
    ensures r.reached == Loaded <==> r.failure.None?
    ensures r.reached != Loaded ==> r.reached == Extracted && r.cluster == c && r.failure == Some(Transform(staged).error)
    ensures r.reached == Loaded ==> IndexName in r.cluster && r.cluster == LoadTable(c, Transform(staged).value)
    ensures r.reached == Loaded ==> forall k :: 1 <= k <= Transform(staged).value.height ==>
      k in r.cluster[IndexName].docs &&
      r.cluster[IndexName].docs[k] == RowDoc(Names(Transform(staged).value.columns), Row(Transform(staged).value, k - 1))
  {
    match Transform(staged)
    case Err(e) => Outcome(c, Extracted, Some(e))
    case Ok(clean) =>
      LoadTableContents(c, clean);
      Outcome(LoadTable(c, clean), Loaded, None)
  }

  /** Running the pipeline twice on the same input gives what one run gave. */
  lemma RunIdempotent(c: Cluster, staged: Table)
    requires Staged(staged)
    ensures Run(Run(c, staged).cluster, staged) == Run(c, staged)
  {
    if Transform(staged).Ok? {
      LoadDocsIdempotent(c, Documents(Transform(staged).value));
    }
  }
}
