/** The song queue as values: what each operation returns and leaves behind. */
module Songs {
  /** A playlist and the position in it, -1 when there is none. */
  datatype Queue = Queue(playlist: seq<string>, index: int)

  /** A path of the playlist, or the empty path. */
  datatype Answer = Answer(queue: Queue, path: string)

  const EMPTY := Queue([], -1)

  function Load(paths: seq<string>): Queue {
    Queue(paths, if paths == [] then -1 else 0)
  }

  function Current(q: Queue): string {
    if q.index < 0 || q.index >= |q.playlist| then "" else q.playlist[q.index]
  }

  function Next(q: Queue): Answer {
    if q.index < 0 || q.playlist == [] then Answer(q, "")
    else if q.index + 1 >= |q.playlist| then Answer(q.(index := |q.playlist| - 1), "")
    else Answer(q.(index := q.index + 1), q.playlist[q.index + 1])
  }

  function Previous(q: Queue): Answer
    requires q.index <= |q.playlist|
  {
    if q.index <= 0 || q.playlist == [] then Answer(q, "")
    else Answer(q.(index := q.index - 1), q.playlist[q.index - 1])
  }

  function SkipTo(q: Queue, i: int): Answer {
    if i < 0 || i >= |q.playlist| then Answer(q, "") else Answer(q.(index := i), q.playlist[i])
  }

  /** No position without a playlist, and otherwise one inside it. */
  predicate InRange(q: Queue) {
    if q.playlist == [] then q.index == -1 else 0 <= q.index < |q.playlist|
  }

  lemma OperationsStayInRange(q: Queue, paths: seq<string>, i: int)
    requires InRange(q)
    ensures InRange(EMPTY) && InRange(Load(paths))
    ensures InRange(Next(q).queue) && InRange(Previous(q).queue) && InRange(SkipTo(q, i).queue)
  {
  }

  /** A step forward that finds a song is undone by a step back, and the other way round. */
  lemma PreviousUndoesNext(q: Queue)
    requires InRange(q)
    ensures q.index + 1 < |q.playlist| ==> Previous(Next(q).queue) == Answer(q, Current(q))
    ensures q.index > 0 ==> Next(Previous(q).queue) == Answer(q, Current(q))
  {
  }
}

/** The queue object. */
module SongQueues {
  import opened Songs

  class SongQueue {
    var playlist: seq<string>
    var currentIndex: int

    ghost function View(): Queue
      reads this
    {
      Queue(playlist, currentIndex)
    }

    constructor ()
      ensures View() == EMPTY
    {
      playlist, currentIndex := [], -1;
    }

    method LoadPlaylist(paths: seq<string>)
      modifies this
      ensures View() == Songs.Load(paths)
    {
      playlist := paths;
      currentIndex := if paths == [] then -1 else 0;
    }

    method GetCurrentSongPath() returns (path: string)
      ensures path == Current(View())
    {
      if currentIndex < 0 || currentIndex >= |playlist| {
        return "";
      }
      path := playlist[currentIndex];
    }

    method Next() returns (path: string)
      modifies this
      ensures Answer(View(), path) == Songs.Next(old(View()))
    {
      if currentIndex < 0 || playlist == [] {
        return "";
      }
      currentIndex := currentIndex + 1;
      if currentIndex >= |playlist| {
        currentIndex := |playlist| - 1;
        return "";
      }
      path := playlist[currentIndex];
    }

    method Previous() returns (path: string)
      requires currentIndex <= |playlist|
      modifies this
      ensures Answer(View(), path) == Songs.Previous(old(View()))
    {
      if currentIndex <= 0 || playlist == [] {
        return "";
      }
      currentIndex := currentIndex - 1;
      path := playlist[currentIndex];
    }

    method SkipTo(i: int) returns (path: string)
      modifies this
      ensures Answer(View(), path) == Songs.SkipTo(old(View()), i)
    {
      if i < 0 || i >= |playlist| {
        return "";
      }
      currentIndex := i;
      path := playlist[currentIndex];
    }

    method Clear()
      modifies this
      ensures View() == EMPTY
    {
      playlist, currentIndex := [], -1;
    }
  }
}
