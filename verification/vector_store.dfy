/**
 * The vector collection, seen as the sequence of points written to it. Each
 * write goes under a fresh random id, so it always adds a point.
 */
module VectorStore {
  import opened Wrappers

  /** The payload stored with a journal vector; only raw-text imports carry `source`. */
  datatype Payload = Payload(date: string, tags: string, mood: string, text: string, source: Option<string>)

  datatype Point = Point(vector: seq<real>, payload: Payload)

  class Collection {
    var points: seq<Point>

    constructor()
      ensures points == []
    {
      points := [];
    }

    /** `add_entry(vector, payload)`: one more point. */
    method Upsert(vector: seq<real>, payload: Payload)
      modifies this
      ensures points == old(points) + [Point(vector, payload)]
    {
      points := points + [Point(vector, payload)];
    }

    /** `reset`: the collection is dropped and created again, empty. */
    method Reset()
      modifies this
      ensures points == []
    {
      points := [];
    }
  }
}
