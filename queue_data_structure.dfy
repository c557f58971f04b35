/** The standalone `Queue`. Its constructor, `enqueue`, `dequeue`,
    `is_empty`, iteration and membership are those of the linked-list
    `Queue`; `front` and `rear` differ: they read the end node's data without
    looking whether there is one, so on an empty queue they fail with
    `AttributeError` where their documentation promises `None`. */
module QueueDataStructure {
  import opened Errors
  import StackAndQueue

  type Queue<T(==)> = StackAndQueue.Queue<T>

  /** `front` as written: the front value, or `AttributeError` from reading
      `data` off `None` when the queue is empty. */
  method Front<T(==)>(q: Queue<T>) returns (r: Result<T>)
    requires q.Valid()
    ensures r.Err? <==> q.Contents == []
    ensures r.Err? ==> r.error == AttributeError
    ensures r.Ok? ==> r.value == q.Contents[0]
  {
    if q.first == null {
      return Err(AttributeError);
    }
    return Ok(q.first.value);
  }

  /** `rear` as written: the rear value, or `AttributeError` on an empty
      queue. */
  method Rear<T(==)>(q: Queue<T>) returns (r: Result<T>)
    requires q.Valid()
    ensures r.Err? <==> q.Contents == []
    ensures r.Err? ==> r.error == AttributeError
    ensures r.Ok? ==> r.value == q.Contents[|q.Contents| - 1]
  {
    if q.last == null {
      return Err(AttributeError);
    }
    return Ok(q.last.value);
  }

  /** A queue just built from no elements makes `front` fail, where the
      linked-list queue's `front` answers `None`. */
  method EmptyFrontRaises<T(==)>() returns (r: Result<T>, corrected: Option<T>)
    ensures r == Err(AttributeError) && corrected == None
  {
    var q := StackAndQueue.BuildQueue<T>([]);
    r := Front(q);
    corrected := StackAndQueue.Front(q);
  }
}
