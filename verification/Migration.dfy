/** The batched copy of every ChromaDB collection into one Qdrant collection. */
module Migrations {
  import opened Wrappers

  const BATCH_SIZE: nat := 100

  type Metadata = map<string, string>
  type Vector = seq<real>

  /** A source entry; an entry without an embedding is not migrated. */
  datatype Entry = Entry(id: string, embedding: Option<Vector>, metadata: Metadata, text: string)

  datatype Point = Point(id: string, vector: Vector, payload: Metadata)

  /** The target collection, by point id. */
  type Target = map<string, Point>

  /** `pointId` is the id itself if it is a UUID, and its name-based UUID otherwise. */
  function ToPoint(pointId: string -> string, e: Entry): Point
    requires e.embedding.Some?
  {
    Point(pointId(e.id), e.embedding.value, e.metadata["text" := e.text])
  }

  function Points(pointId: string -> string, entries: seq<Entry>): seq<Point> {
    if entries == [] then []
    else
      var last := entries[|entries| - 1];
      Points(pointId, entries[..|entries| - 1]) + if last.embedding.Some? then [ToPoint(pointId, last)] else []
  }

  /** Upserting points one after the other: the last writer of an id wins. */
  function Upserted(target: Target, points: seq<Point>): Target {
    if points == [] then target
    else
      var last := points[|points| - 1];
      Upserted(target, points[..|points| - 1])[last.id := last]
  }

  /** The collections one after the other. */
  function AllEntries(collections: seq<seq<Entry>>): seq<Entry> {
    if collections == [] then [] else AllEntries(collections[..|collections| - 1]) + collections[|collections| - 1]
  }

  // ---------------------------------------------------------------- lemmas about the pieces

  lemma {:induction false} PointsConcat(pointId: string -> string, a: seq<Entry>, b: seq<Entry>)
    ensures Points(pointId, a + b) == Points(pointId, a) + Points(pointId, b)
  {
    if b == [] {
      assert a + b == a;
    } else {
      var front, last := b[..|b| - 1], b[|b| - 1];
      var more := if last.embedding.Some? then [ToPoint(pointId, last)] else [];
      PointsConcat(pointId, a, front);
      assert (a + b)[..|a + b| - 1] == a + front && (a + b)[|a + b| - 1] == last;
      assert Points(pointId, a + b) == Points(pointId, a + front) + more;
      assert Points(pointId, b) == Points(pointId, front) + more;
      hide *;
    }
  }

  lemma {:induction false} UpsertedConcat(target: Target, a: seq<Point>, b: seq<Point>)
    ensures Upserted(target, a + b) == Upserted(Upserted(target, a), b)
  {
    if b == [] {
      assert a + b == a;
    } else {
      UpsertedConcat(target, a, b[..|b| - 1]);
      assert (a + b)[..|a + b| - 1] == a + b[..|b| - 1];
    }
  }

  predicate Writes(points: seq<Point>, id: string) {
    exists i :: 0 <= i < |points| && points[i].id == id
  }

  /** `p` is the last point with its id. */
  ghost predicate LastWriter(points: seq<Point>, p: Point) {
    exists i :: LastAt(points, p, i)
  }

  predicate LastAt(points: seq<Point>, p: Point, i: int) {
    0 <= i < |points| && points[i] == p && forall j :: i < j < |points| ==> points[j].id != p.id
  }

  lemma {:induction false} UpsertedUnwritten(target: Target, points: seq<Point>, id: string)
    requires !Writes(points, id)
    ensures id in Upserted(target, points) <==> id in target
    ensures id in target ==> Upserted(target, points)[id] == target[id]
  {
    if points != [] {
      assert points[|points| - 1].id != id;
      UpsertedUnwritten(target, points[..|points| - 1], id);
    }
  }

  lemma {:induction false} UpsertedWritten(target: Target, points: seq<Point>, id: string)
    requires Writes(points, id)
    ensures id in Upserted(target, points)
    ensures Upserted(target, points)[id].id == id && LastWriter(points, Upserted(target, points)[id])
  {
    var rest, last := points[..|points| - 1], points[|points| - 1];
    if last.id == id {
      assert LastAt(points, last, |points| - 1);
    } else {
      var i :| 0 <= i < |points| && points[i].id == id;
      assert rest[i].id == id;
      UpsertedWritten(target, rest, id);
      var p := Upserted(target, rest)[id];
      var k :| LastAt(rest, p, k);
      assert LastAt(points, p, k);
    }
  }

  /** The target after the upserts: the last point written to an id, or what was there before. */
  lemma UpsertedIsOverlay(target: Target, points: seq<Point>, id: string, p: Point)
    ensures id in Upserted(target, points) && Upserted(target, points)[id] == p <==>
      if Writes(points, id) then p.id == id && LastWriter(points, p) else id in target && target[id] == p
  {
    if Writes(points, id) {
      UpsertedWritten(target, points, id);
      if p.id == id && LastWriter(points, p) {
        LastWriterUnique(points, p, Upserted(target, points)[id]);
      }
    } else {
      UpsertedUnwritten(target, points, id);
    }
  }

  lemma LastWriterUnique(points: seq<Point>, p: Point, q: Point)
    requires LastWriter(points, p) && LastWriter(points, q) && p.id == q.id
    ensures p == q
  {
  }

  /**
   Writing all points over any number of the first of them, all included, leaves what writing all of them at once
   does: a run that stopped midway, or was complete, is made good by running again.
   */
  lemma RestartAt(target: Target, points: seq<Point>, k: nat)
    requires k <= |points|
    ensures Upserted(Upserted(target, points[..k]), points) == Upserted(target, points)
  {
    var once, part := Upserted(target, points), Upserted(target, points[..k]);
    var twice := Upserted(part, points);
    forall id
      ensures (id in twice <==> id in once) && (id in once ==> twice[id] == once[id])
    {
      if !Writes(points, id) {
        assert !Writes(points[..k], id);
        UpsertedUnwritten(target, points, id);
        UpsertedUnwritten(target, points[..k], id);
        UpsertedUnwritten(part, points, id);
      } else {
        UpsertedWritten(target, points, id);
        UpsertedWritten(part, points, id);
        LastWriterUnique(points, once[id], twice[id]);
      }
    }
  }

  lemma {:induction false} CountEmbedded(pointId: string -> string, entries: seq<Entry>)
    ensures |Points(pointId, entries)| == |Embedded(entries)|
  {
    if entries != [] {
      CountEmbedded(pointId, entries[..|entries| - 1]);
    }
  }

  function Embedded(entries: seq<Entry>): seq<Entry> {
    if entries == [] then []
    else
      var last := entries[|entries| - 1];
      Embedded(entries[..|entries| - 1]) + if last.embedding.Some? then [last] else []
  }

  /** The entry has an embedding and goes to the point `id`. */
  predicate GoesTo(pointId: string -> string, e: Entry, id: string) {
    e.embedding.Some? && pointId(e.id) == id
  }

  lemma UpsertedSnoc(target: Target, points: seq<Point>, p: Point)
    ensures Upserted(target, points + [p]) == Upserted(target, points)[p.id := p]
  {
    assert (points + [p])[..|points|] == points;
  }

  lemma PointsSnoc(pointId: string -> string, target: Target, entries: seq<Entry>)
    requires entries != []
    ensures var front, last := entries[..|entries| - 1], entries[|entries| - 1];
      Upserted(target, Points(pointId, entries)) ==
        if last.embedding.Some?
        then Upserted(target, Points(pointId, front))[pointId(last.id) := ToPoint(pointId, last)]
        else Upserted(target, Points(pointId, front))
  {
    var front, last := entries[..|entries| - 1], entries[|entries| - 1];
    if last.embedding.Some? {
      UpsertedSnoc(target, Points(pointId, front), ToPoint(pointId, last));
    } else {
      assert Points(pointId, front) + [] == Points(pointId, front);
    }
  }

  /**
   The last entry that goes to a point is what the point holds: its vector, its metadata, and its text under
   "text".
   */
  lemma {:induction false} LastEntryWins(pointId: string -> string, target: Target, entries: seq<Entry>, k: nat)
    requires k < |entries| && entries[k].embedding.Some?
    requires forall j :: k < j < |entries| ==> !GoesTo(pointId, entries[j], pointId(entries[k].id))
    ensures var e, after := entries[k], Upserted(target, Points(pointId, entries));
      && pointId(e.id) in after
      && var p := after[pointId(e.id)];
      && p.id == pointId(e.id) && p.vector == e.embedding.value
      && "text" in p.payload && p.payload["text"] == e.text
      && (forall key :: key != "text" ==> (key in p.payload <==> key in e.metadata))
      && (forall key :: key != "text" && key in e.metadata ==> p.payload[key] == e.metadata[key])
  {
    PointsSnoc(pointId, target, entries);
    if k < |entries| - 1 {
      LastEntryWins(pointId, target, entries[..|entries| - 1], k);
      assert !GoesTo(pointId, entries[|entries| - 1], pointId(entries[k].id));
      hide Points, Upserted;
    }
  }

  /** A point that no entry goes to stays as it was. */
  lemma {:induction false} OtherPointsStay(pointId: string -> string, target: Target, entries: seq<Entry>, id: string)
    requires forall e :: e in entries ==> !GoesTo(pointId, e, id)
    ensures id in Upserted(target, Points(pointId, entries)) <==> id in target
    ensures id in target ==> Upserted(target, Points(pointId, entries))[id] == target[id]
  {
    if entries != [] {
      PointsSnoc(pointId, target, entries);
      OtherPointsStay(pointId, target, entries[..|entries| - 1], id);
      assert !GoesTo(pointId, entries[|entries| - 1], id);
      hide Points, Upserted;
    }
  }

  // ---------------------------------------------------------------- the migration

  /** `get(limit, offset)` of a collection. */
  function Batch(col: seq<Entry>, limit: nat, offset: nat): seq<Entry> {
    if offset >= |col| then []
    else if offset + limit <= |col| then col[offset..offset + limit]
    else col[offset..]
  }

  class Migration {
    const pointId: string -> string
    var qdrant: Target
    var totalMigrated: nat

    constructor (pointId: string -> string, target: Target)
      ensures this.pointId == pointId && qdrant == target && totalMigrated == 0
    {
      this.pointId := pointId;
      qdrant, totalMigrated := target, 0;
    }

    method ToPoints(batch: seq<Entry>) returns (points: seq<Point>)
      ensures points == Points(pointId, batch)
    {
      points := [];
      for i := 0 to |batch|
        invariant points == Points(pointId, batch[..i])
      {
        assert batch[..i + 1][..i] == batch[..i];
        if batch[i].embedding.None? {
          continue;
        }
        points := points + [ToPoint(pointId, batch[i])];
      }
      assert batch[..|batch|] == batch;
    }

    method MigrateCollection(col: seq<Entry>)
      modifies this
      ensures qdrant == Upserted(old(qdrant), Points(pointId, col))
      ensures totalMigrated == old(totalMigrated) + |Points(pointId, col)|
    {
      var count := |col|;
      var offset := 0;
      ghost var done := 0;
      while true
        invariant done == offset <= |col|
        invariant qdrant == Upserted(old(qdrant), Points(pointId, col[..done]))
        invariant totalMigrated == old(totalMigrated) + |Points(pointId, col[..done])|
        decreases count - offset
      {
        var batch := Batch(col, BATCH_SIZE, offset);
        if batch == [] {
          break;
        }
        var points := ToPoints(batch);
        assert done + |batch| <= |col| && col[..done + |batch|] == col[..done] + batch;
        PointsConcat(pointId, col[..done], batch);
        UpsertedConcat(old(qdrant), Points(pointId, col[..done]), points);
        if points != [] {
          qdrant := Upserted(qdrant, points);
          totalMigrated := totalMigrated + |points|;
        }
        done := done + |batch|;
        offset := offset + BATCH_SIZE;
        if offset >= count {
          break;
        }
      }
      assert col[..done] == col;
    }

    method Migrate(collections: seq<seq<Entry>>)
      modifies this
      ensures qdrant == Upserted(old(qdrant), Points(pointId, AllEntries(collections)))
      ensures totalMigrated == old(totalMigrated) + |Embedded(AllEntries(collections))|
    {
      for c := 0 to |collections|
        invariant qdrant == Upserted(old(qdrant), Points(pointId, AllEntries(collections[..c])))
        invariant totalMigrated == old(totalMigrated) + |Points(pointId, AllEntries(collections[..c]))|
      {
        ghost var before := AllEntries(collections[..c]);
        MigrateCollection(collections[c]);
        assert collections[..c + 1][..c] == collections[..c];
        PointsConcat(pointId, before, collections[c]);
        UpsertedConcat(old(qdrant), Points(pointId, before), Points(pointId, collections[c]));
      }
      assert collections[..|collections|] == collections;
      CountEmbedded(pointId, AllEntries(collections));
    }
  }
}
