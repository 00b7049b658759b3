/**
  Listing a directory in batches (ll_readdir in lowlevel.c, the enumerate
  requests in proto_directory.c).
 */
module Enumerate {
  const BATCH: nat := 20   // reqcount

  /** The width of the start index on the wire: 16 bits before AFP 3.0, 32 bits since. */
  function IndexCount(version: nat): (n: nat)
    ensures n >= 0x1_0000
  {
    if version < 30 then 0x1_0000 else 0x1_0000_0000
  }

  datatype Answer<T> = Batch(entries: seq<T>) | NotFound | Invalid

  /** The entries from a start index on; the size of a batch is the server's choice. */
  function Ask<T>(dir: seq<T>, version: nat, startindex: nat, choice: nat): (a: Answer<T>)
  {
    var wire := startindex % IndexCount(version);
    if wire == 0 then Invalid
    else if wire > |dir| then NotFound
    else
      var left := |dir| - (wire - 1);
      var want := 1 + choice % BATCH;
      Batch(dir[wire - 1..wire - 1 + if want < left then want else left])
  }

  datatype Listing<T> = Running(startindex: nat, list: seq<T>) | Complete(list: seq<T>) | Failed

  /** The enumeration loop cut off after `calls` requests. */
  function Enumerated<T>(dir: seq<T>, version: nat, choices: nat -> nat, calls: nat): (r: Listing<T>)
    ensures r.Running? ==> r.startindex >= 1
  {
    if calls == 0 then Running(1, [])
    else
      match Enumerated(dir, version, choices, calls - 1)
      case Complete(list) => Complete(list)
      case Failed => Failed
      case Running(startindex, list) =>
        match Ask(dir, version, startindex, choices(calls - 1))
        case Invalid => Failed
        case NotFound => Complete(list)
        case Batch(entries) => Running(startindex + |entries|, list + entries)
  }

  /** An index that fits the wire gets the next entries, or the end. */
  lemma AskInRange<T>(dir: seq<T>, version: nat, startindex: nat, choice: nat)
    requires 1 <= startindex <= |dir| + 1 < IndexCount(version)
    ensures match Ask(dir, version, startindex, choice)
            case Invalid => false
            case NotFound => dir[..startindex - 1] == dir
            case Batch(entries) =>
              var next := startindex + |entries|;
              startindex < next <= |dir| + 1 && dir[..startindex - 1] + entries == dir[..next - 1] && |entries| <= 20
  {
    assert startindex % IndexCount(version) == startindex;
  }

  /** While the index has not wrapped, what has been collected is a prefix of the directory. */
  lemma {:induction false} CollectsPrefix<T>(dir: seq<T>, version: nat, choices: nat -> nat, calls: nat)
    requires |dir| + 1 < IndexCount(version)
    ensures match Enumerated(dir, version, choices, calls)
            case Running(startindex, list) => startindex - 1 <= |dir| && list == dir[..startindex - 1] && calls <= startindex - 1
            case Complete(list) => list == dir
            case Failed => false
  {
    if calls > 0 {
      CollectsPrefix(dir, version, choices, calls - 1);
      match Enumerated(dir, version, choices, calls - 1)
      case Complete(list) =>
      case Failed =>
      case Running(startindex, list) =>
        AskInRange(dir, version, startindex, choices(calls - 1));
    }
  }

  lemma {:induction false} NeverCompletes<T>(dir: seq<T>, version: nat, choices: nat -> nat, calls: nat)
    requires |dir| + 1 >= IndexCount(version)
    ensures !Enumerated(dir, version, choices, calls).Complete?
  {
    if calls > 0 {
      NeverCompletes(dir, version, choices, calls - 1);
    }
  }

  /**
    Pagination is complete: the loop comes to its regular end if and only if the
    directory leaves room for one more index on the wire, and then the list is every
    entry, once and in order. A larger directory wraps the index, so that the
    end is never reported: entries come again, or index 0 is asked for.
   */
  lemma PaginationIff<T>(dir: seq<T>, version: nat, choices: nat -> nat)
    ensures (exists calls: nat :: Enumerated(dir, version, choices, calls).Complete?)
            <==> |dir| < if version < 30 then 65535 else 4294967295
    ensures forall calls: nat :: Enumerated(dir, version, choices, calls).Complete? ==>
              Enumerated(dir, version, choices, calls).list == dir
  {
    if |dir| + 1 < IndexCount(version) {
      forall calls: nat ensures Enumerated(dir, version, choices, calls).Complete? ==>
                                  Enumerated(dir, version, choices, calls).list == dir {
        CollectsPrefix(dir, version, choices, calls);
      }
      CollectsPrefix(dir, version, choices, |dir| + 1);
      assert Enumerated(dir, version, choices, |dir| + 1).Complete?;
    } else {
      forall calls: nat ensures !Enumerated(dir, version, choices, calls).Complete? {
        NeverCompletes(dir, version, choices, calls);
      }
    }
  }

  /** One more request of a listing that is still running. */
  lemma OneMore<T>(dir: seq<T>, version: nat, choices: nat -> nat, calls: nat, startindex: nat, list: seq<T>)
    requires Enumerated(dir, version, choices, calls) == Running(startindex, list)
    requires 1 <= startindex <= |dir| + 1 < IndexCount(version) && list == dir[..startindex - 1]
    ensures match Ask(dir, version, startindex, choices(calls))
            case Invalid => false
            case NotFound => list == dir
            case Batch(entries) =>
              var next := startindex + |entries|;
              && startindex < next <= |dir| + 1 && list + entries == dir[..next - 1]
              && Enumerated(dir, version, choices, calls + 1) == Running(next, list + entries)
  {
    AskInRange(dir, version, startindex, choices(calls));
  }

  datatype Fault = NoFault | AccessDenied | DirNotFound | OtherError

  /**
    The loop itself; a fault of the i-th request ends it the way ll_readdir does, that of a
    directory that is gone without an error. `calls` requests had been answered before the last one.
   */
  method LlReaddir<T>(dir: seq<T>, version: nat, choices: nat -> nat, faults: nat -> Fault)
      returns (ret: int, fb: seq<T>, calls: nat)
    requires |dir| + 1 < IndexCount(version)
    ensures forall i :: 0 <= i < calls ==> faults(i) == NoFault
    ensures match faults(calls)
            case NoFault => ret == 0 && fb == dir
            case AccessDenied => ret == -13 && fb == []
            case OtherError => ret == -5 && fb == []
            case DirNotFound => ret == 0 && fb <= dir
    ensures Enumerated(dir, version, choices, calls).Running?
    ensures ret == 0 ==> fb == Enumerated(dir, version, choices, calls).list
  {
    var startindex, i, exit := 1, 0, false;
    var filebase: seq<T> := [];
    ret, fb, calls := 0, [], 0;
    while !exit
      invariant 1 <= startindex <= |dir| + 1 && filebase == dir[..startindex - 1] && ret == 0
      invariant forall j :: 0 <= j < calls ==> faults(j) == NoFault
      invariant Enumerated(dir, version, choices, calls) == Running(startindex, filebase)
      invariant !exit ==> calls == i
      invariant exit ==> faults(calls) == DirNotFound || (faults(calls) == NoFault && filebase == dir)
      decreases !exit, |dir| + 1 - startindex
    {
      match faults(i)
      case AccessDenied => return -13, fb, calls;
      case OtherError => return -5, fb, calls;
      case DirNotFound => exit := true;
      case NoFault =>
        OneMore(dir, version, choices, calls, startindex, filebase);
        match Ask(dir, version, startindex, choices(i)) {
          case Invalid => return -5, fb, calls;
          case NotFound => exit := true;
          case Batch(base) =>
            filebase := filebase + base;
            startindex := startindex + |base|;
            calls := calls + 1;
        }
      i := i + 1;
    }
    fb := filebase;
  }
}
