/** A view of the dock that knows nothing but the row signals: the position of each inserted,
    removed or moved row, and the id it reads at an inserted row when told about it. */
module DockView {
  import opened Lists
  import opened DockState

  /** Moved(from, dest): the row leaves `from` and comes to stand before the row that was `dest`. */
  datatype Notification = Inserted(row: nat, id: string) | Removed(row: nat) | Moved(from: nat, dest: nat)

  function Ids(data: seq<Entry>): (ids: seq<string>) {
    seq(|data|, i requires 0 <= i < |data| => data[i].id)
  }

  function Apply(view: seq<string>, n: Notification): seq<string> {
    match n
    case Inserted(row, id) => if row <= |view| then view[..row] + [id] + view[row..] else view
    case Removed(row) => if row < |view| then view[..row] + view[row + 1..] else view
    case Moved(from, dest) =>
      if from < dest <= |view| then view[..from] + view[from + 1..dest] + [view[from]] + view[dest..]
      else if dest <= from < |view| then view[..dest] + [view[from]] + view[dest..from] + view[from + 1..]
      else view
  }

  function Replay(view: seq<string>, log: seq<Notification>): seq<string> {
    if log == [] then view
    else Apply(Replay(view, log[..|log| - 1]), log[|log| - 1])
  }

  lemma ReplayOne(view: seq<string>, log: seq<Notification>, n: Notification)
    ensures Replay(view, log + [n]) == Apply(Replay(view, log), n)
  {
    assert (log + [n])[..|log|] == log;
  }

  lemma {:induction false} ReplayConcat(view: seq<string>, a: seq<Notification>, b: seq<Notification>)
    ensures Replay(view, a + b) == Replay(Replay(view, a), b)
  {
    if b == [] {
      assert a + b == a;
    } else {
      var n := |b| - 1;
      assert a + b == (a + b[..n]) + [b[n]];
      ReplayOne(view, a + b[..n], b[n]);
      ReplayConcat(view, a, b[..n]);
    }
  }

  /** A listener that attaches in the middle of a run, reading the rows once, follows it from there. */
  lemma LateListenerFollows(earlier: seq<Notification>, later: seq<Notification>, before: seq<Entry>, after: seq<Entry>)
    requires Replay([], earlier) == Ids(before) && Replay([], earlier + later) == Ids(after)
    ensures Replay(Ids(before), later) == Ids(after)
  {
    ReplayConcat([], earlier, later);
  }

  lemma InsertSeen(data: seq<Entry>, row: nat, e: Entry)
    requires row <= |data|
    ensures Ids(InsertAt(data, row, e)) == Apply(Ids(data), Inserted(row, e.id))
  {
  }

  lemma RemoveSeen(data: seq<Entry>, row: nat)
    requires row < |data|
    ensures Ids(RemoveAt(data, row)) == Apply(Ids(data), Removed(row))
  {
  }

  /** QList::move(from, to) is announced as a move before row to + 1 when it goes right. */
  lemma MoveSeen(data: seq<Entry>, from: nat, to: nat)
    requires from < |data| && to < |data| && from != to
    ensures Ids(Move(data, from, to)) == Apply(Ids(data), Moved(from, if from < to then to + 1 else to))
  {
    if from < to { MoveRightSeen(data, from, to); } else { MoveLeftSeen(data, from, to); }
  }

  lemma MoveRightSeen(data: seq<Entry>, from: nat, to: nat)
    requires from < to < |data|
    ensures Ids(Move(data, from, to)) == Apply(Ids(data), Moved(from, to + 1))
  {
    var kept := data[..from] + data[from + 1..to + 1];
    assert Move(data, from, to) == kept + [data[from]] + data[to + 1..];
    IdsConcat(kept, [data[from]], data[to + 1..]);
    assert Ids(kept) == Ids(data)[..from] + Ids(data)[from + 1..to + 1];
  }

  lemma MoveLeftSeen(data: seq<Entry>, from: nat, to: nat)
    requires to < from < |data|
    ensures Ids(Move(data, from, to)) == Apply(Ids(data), Moved(from, to))
  {
    var kept := data[to..from] + data[from + 1..];
    assert Move(data, from, to) == data[..to] + [data[from]] + kept;
    IdsConcat(data[..to], [data[from]], kept);
    assert Ids(kept) == Ids(data)[to..from] + Ids(data)[from + 1..];
  }

  lemma IdsConcat(a: seq<Entry>, x: seq<Entry>, b: seq<Entry>)
    ensures Ids(a + x + b) == Ids(a) + Ids(x) + Ids(b)
  {
  }
}
