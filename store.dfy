/**
 * The object store as the upload step sees it: a map from key to content,
 * a get that can fail, a put that can fail, and a log of the requests made
 * in order. Which requests fail is fixed up front by a set of faulty keys.
 */
module ObjectStore {

  import opened Wrappers

  type Key = string

  /** A request sent to the store. */
  datatype Request = Get(key: Key) | Put(key: Key)

  /** Why a request failed. */
  datatype StoreError =
    | NoSuchKey(key: Key)    // GetObject on a key that holds no object
    | ReadFailed(key: Key)   // the object's body could not be read
    | PutFailed(key: Key)    // PutObject was refused, or its body could not be read

  /** Keys whose reads fail and keys whose writes fail. */
  datatype Faults = Faults(unreadable: set<Key>, rejected: set<Key>)

  /** The contents of the bucket and the requests made so far. */
  datatype State = State(objects: map<Key, string>, log: seq<Request>)

  /** A get of `key`: the content if it is there and readable; the bucket does not change. */
  function GetStep(s: State, f: Faults, key: Key): (r: (Result<string, StoreError>, State))
    ensures r.1 == State(s.objects, s.log + [Get(key)])
    ensures r.0.Success? <==> key in s.objects && key !in f.unreadable
    ensures r.0.Success? ==> r.0.value == s.objects[key]
    ensures r.0.Failure? ==> r.0.error == (if key !in s.objects then NoSuchKey(key) else ReadFailed(key))
  {
    var s' := State(s.objects, s.log + [Get(key)]);
    if key !in s.objects then (Failure(NoSuchKey(key)), s')
    else if key in f.unreadable then (Failure(ReadFailed(key)), s')
    else (Success(s.objects[key]), s')
  }

  /** A put of `body` at `key`: it replaces that one key's content, unless it is refused. */
  function PutStep(s: State, f: Faults, key: Key, body: string): (r: (Result<(), StoreError>, State))
    ensures r.1.log == s.log + [Put(key)]
    ensures r.0.Success? <==> key !in f.rejected
    ensures r.0.Failure? ==> r.0.error == PutFailed(key) && r.1.objects == s.objects
    ensures r.0.Success? ==> r.1.objects.Keys == s.objects.Keys + {key} && r.1.objects[key] == body
    ensures forall k :: k in s.objects && k != key ==> k in r.1.objects && r.1.objects[k] == s.objects[k]
  {
    if key in f.rejected then (Failure(PutFailed(key)), State(s.objects, s.log + [Put(key)]))
    else (Success(()), State(s.objects[key := body], s.log + [Put(key)]))
  }

  /** A bucket whose contents change as puts succeed. */
  class Bucket {
    var objects: map<Key, string>
    var log: seq<Request>
    const faults: Faults

    function Snapshot(): State
      reads this
    {
      State(objects, log)
    }

    constructor (objects: map<Key, string>, faults: Faults)
      ensures this.objects == objects && log == [] && this.faults == faults
    {
      this.objects := objects;
      this.log := [];
      this.faults := faults;
    }

    /** GetObject followed by reading the body to a string. */
    method GetObject(key: Key) returns (r: Result<string, StoreError>)
      modifies this
      ensures (r, Snapshot()) == GetStep(old(Snapshot()), faults, key)
    {
      log := log + [Get(key)];
      if key !in objects {
        r := Failure(NoSuchKey(key));
      } else if key in faults.unreadable {
        r := Failure(ReadFailed(key));
      } else {
        r := Success(objects[key]);
      }
    }

    /** PutObject of `body` at `key`. */
    method PutObject(key: Key, body: string) returns (r: Result<(), StoreError>)
      modifies this
      ensures (r, Snapshot()) == PutStep(old(Snapshot()), faults, key, body)
    {
      log := log + [Put(key)];
      if key in faults.rejected {
        r := Failure(PutFailed(key));
      } else {
        objects := objects[key := body];
        r := Success(());
      }
    }
  }
}
