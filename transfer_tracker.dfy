/**
 * The registry of tracked transfers (ITransferTracker): direction, then
 * username, then filename, to the transfer and its cancellation token source.
 */
module Trackers {
  import opened Primitives

  datatype TransferDirection = Download | Upload

  datatype TransferState = Queued | Initializing | InProgress | Completed | Cancelled | TimedOut | Errored | Rejected

  /** A snapshot of a transfer as an event reports it. */
  datatype Transfer = Transfer(
    direction: TransferDirection,
    username: seq<byte>,
    filename: seq<byte>,
    size: int64,
    bytesTransferred: int64,
    state: TransferState)

  datatype TransferEventArgs = TransferEventArgs(transfer: Transfer)

  /** A cancellation token source, kept as an opaque handle. */
  datatype CancellationTokenSource = CancellationTokenSource(handle: nat)

  /** What the registry holds for one transfer. */
  datatype Tracked = Tracked(transfer: Transfer, cancellationTokenSource: CancellationTokenSource)

  /** The nested dictionary: direction, username, filename. Each key holds at most one entry. */
  type Registry = map<TransferDirection, map<seq<byte>, map<seq<byte>, Tracked>>>

  /** The entry at (direction, username, filename), if any. */
  function Lookup(transfers: Registry, direction: TransferDirection, username: seq<byte>, filename: seq<byte>): Option<Tracked> {
    if direction in transfers && username in transfers[direction] && filename in transfers[direction][username]
    then Some(transfers[direction][username][filename])
    else None
  }

  /** The registry after AddOrUpdate: the event's key holds the event's transfer and the token source, nothing else changes. */
  function Upsert(transfers: Registry, args: TransferEventArgs, cancellationTokenSource: CancellationTokenSource): (updated: Registry)
    ensures forall d, u, f :: Lookup(updated, d, u, f) ==
              if d == args.transfer.direction && u == args.transfer.username && f == args.transfer.filename
              then Some(Tracked(args.transfer, cancellationTokenSource))
              else Lookup(transfers, d, u, f)
  {
    var t := args.transfer;
    var users := if t.direction in transfers then transfers[t.direction] else map[];
    var files := if t.username in users then users[t.username] else map[];
    transfers[t.direction := users[t.username := files[t.filename := Tracked(t, cancellationTokenSource)]]]
  }

  /**
   * The registry after TryRemove: with a filename only that entry goes; without
   * one every entry of that direction and username goes. Entries under any
   * other direction or username stay as they were.
   */
  function Remove(transfers: Registry, direction: TransferDirection, username: seq<byte>, filename: Option<seq<byte>>): (updated: Registry)
    ensures forall d, u, f :: Lookup(updated, d, u, f) ==
              if d == direction && u == username && (filename.None? || filename.value == f)
              then None
              else Lookup(transfers, d, u, f)
  {
    if direction !in transfers then transfers
    else if filename.None? then transfers[direction := transfers[direction] - {username}]
    else if username !in transfers[direction] then transfers
    else transfers[direction := transfers[direction][username := transfers[direction][username] - {filename.value}]]
  }

  /** Updating a tracked key replaces its entry: the user's entry count does not grow. */
  lemma UpdateReplaces(transfers: Registry, args: TransferEventArgs, cancellationTokenSource: CancellationTokenSource)
    requires Lookup(transfers, args.transfer.direction, args.transfer.username, args.transfer.filename).Some?
    ensures var t := args.transfer;
            var updated := Upsert(transfers, args, cancellationTokenSource);
            |updated[t.direction][t.username]| == |transfers[t.direction][t.username]|
  {
    var t := args.transfer;
    var files := transfers[t.direction][t.username];
    var files' := files[t.filename := Tracked(t, cancellationTokenSource)];
    assert files'.Keys == files.Keys;
  }

  /** Removing what is not tracked leaves the registry exactly as it was. */
  lemma RemoveUntracked(transfers: Registry, direction: TransferDirection, username: seq<byte>, filename: Option<seq<byte>>)
    requires filename.Some? ==> Lookup(transfers, direction, username, filename.value).None?
    requires filename.None? ==> direction !in transfers || username !in transfers[direction]
    ensures Remove(transfers, direction, username, filename) == transfers
  {
    if direction in transfers {
      var users := transfers[direction];
      if filename.None? {
        assert users - {username} == users;
      } else if username in users {
        assert users[username] - {filename.value} == users[username];
        assert users[username := users[username]] == users;
      }
    }
  }

  /** The tracker: a sequential model of the concurrent nested dictionary. */
  class TransferTracker {
    var transfers: Registry

    constructor ()
      ensures transfers == map[]
    {
      transfers := map[];
    }

    function Get(direction: TransferDirection, username: seq<byte>, filename: seq<byte>): Option<Tracked>
      reads this
    {
      Lookup(transfers, direction, username, filename)
    }

    method AddOrUpdate(args: TransferEventArgs, cancellationTokenSource: CancellationTokenSource)
      modifies this
      ensures transfers == Upsert(old(transfers), args, cancellationTokenSource)
    {
      var t := args.transfer;
      var users: map<seq<byte>, map<seq<byte>, Tracked>> := map[];
      if t.direction in transfers {
        users := transfers[t.direction];
      }
      var files: map<seq<byte>, Tracked> := map[];
      if t.username in users {
        files := users[t.username];
      }
      files := files[t.filename := Tracked(t, cancellationTokenSource)];
      transfers := transfers[t.direction := users[t.username := files]];
    }

    /** Omitting the filename removes every transfer of that user in that direction. */
    method TryRemove(direction: TransferDirection, username: seq<byte>, filename: Option<seq<byte>> := None)
      modifies this
      ensures transfers == Remove(old(transfers), direction, username, filename)
    {
      if direction in transfers {
        var users := transfers[direction];
        if filename.None? {
          transfers := transfers[direction := users - {username}];
        } else if username in users {
          transfers := transfers[direction := users[username := users[username] - {filename.value}]];
        }
      }
    }
  }

  /** Three downloads, then a removal of one user's downloads without a filename. */
  method BulkRemovalExample(size: int64, state: TransferState, cts: CancellationTokenSource) {
    var alice, bob, a, b := [97, 108, 105, 99, 101], [98, 111, 98], [97], [98];
    var tracker := new TransferTracker();
    tracker.AddOrUpdate(TransferEventArgs(Transfer(Download, alice, a, size, 0, state)), cts);
    tracker.AddOrUpdate(TransferEventArgs(Transfer(Download, alice, b, size, 0, state)), cts);
    tracker.AddOrUpdate(TransferEventArgs(Transfer(Download, bob, a, size, 0, state)), cts);
    tracker.TryRemove(Download, alice);
    assert tracker.Get(Download, alice, a).None?;
    assert tracker.Get(Download, alice, b).None?;
    assert tracker.Get(Download, bob, a) == Some(Tracked(Transfer(Download, bob, a, size, 0, state), cts));
  }

  /** Two updates of one key leave one entry, holding the later transfer. */
  method UpdateExample(size: int64, cts: CancellationTokenSource) {
    var alice, a := [97, 108, 105, 99, 101], [97];
    var tracker := new TransferTracker();
    tracker.AddOrUpdate(TransferEventArgs(Transfer(Download, alice, a, size, 10, InProgress)), cts);
    tracker.AddOrUpdate(TransferEventArgs(Transfer(Download, alice, a, size, 20, InProgress)), cts);
    assert tracker.Get(Download, alice, a).value.transfer.bytesTransferred == 20;
    assert |tracker.transfers[Download][alice]| == 1;
  }
}
