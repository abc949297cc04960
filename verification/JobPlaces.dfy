/** Where the tasks of a TaskQueue are: still open, or checked out in one batch. */
module JobPlaces {
  import opened Sequences

  /** A task and what order_fn gives for it. */
  datatype Job = Job(id: nat, priority: int)

  datatype Place = Open | Batch(id: nat)

  function JobSet(js: seq<Job>): set<Job> { set j | j in js }

  /** js has no task twice. */
  ghost predicate NoRepeat(js: seq<Job>) { |JobSet(js)| == |js| }

  lemma {:induction false} JobSetCard(js: seq<Job>)
    ensures |JobSet(js)| <= |js|
  {
    if js != [] {
      JobSetCard(js[1..]);
      assert JobSet(js) == {js[0]} + JobSet(js[1..]);
    }
  }

  lemma NoRepeatDistinct(js: seq<Job>)
    ensures NoRepeat(js) <==> Distinct(js)
  {
    if Distinct(js) {
      DistinctCovers(js, JobSet(js));
    } else {
      var i, j :| 0 <= i < j < |js| && js[i] == js[j];
      var t := js[..j] + js[j + 1..];
      assert JobSet(t) == JobSet(js) by {
        forall x | x in js ensures x in t {
          var k :| 0 <= k < |js| && js[k] == x;
          assert t[if k < j then k else if k == j then i else k - 1] == x;
        }
      }
      JobSetCard(t);
    }
  }

  lemma JobSetSnoc(js: seq<Job>, k: nat)
    requires k < |js| && Distinct(js)
    ensures JobSet(js[..k + 1]) == JobSet(js[..k]) + {js[k]} && js[k] !in JobSet(js[..k])
  {
    assert js[..k + 1] == js[..k] + [js[k]];
  }

  /** place says for every uncompleted task where it is, and the queue and the batches agree with it. */
  ghost predicate Placed(open: set<Job>, inProgress: map<nat, seq<Job>>, tasks: set<Job>, place: map<Job, Place>) {
    && place.Keys == tasks
    && (forall j :: PlacedOpen(open, place, j))
    && (forall b, j :: PlacedBatch(inProgress, place, b, j))
    && (forall b :: NoRepeatIn(inProgress, b))
  }

  ghost predicate NoRepeatIn(inProgress: map<nat, seq<Job>>, b: nat) {
    b in inProgress ==> NoRepeat(inProgress[b])
  }

  ghost predicate PlacedOpen(open: set<Job>, place: map<Job, Place>, j: Job) {
    j in open <==> j in place && place[j] == Open
  }

  ghost predicate PlacedBatch(inProgress: map<nat, seq<Job>>, place: map<Job, Place>, b: nat, j: Job) {
    (b in inProgress && j in inProgress[b]) <==> (j in place && place[j] == Batch(b))
  }

  /** An uncompleted task is in the open queue or in exactly one batch, and nothing else is anywhere. */
  lemma OnePlace(open: set<Job>, inProgress: map<nat, seq<Job>>, tasks: set<Job>, place: map<Job, Place>, j: Job)
    requires Placed(open, inProgress, tasks, place)
    ensures j in open ==> j in tasks && forall b :: b in inProgress ==> j !in inProgress[b]
    ensures forall b :: b in inProgress && j in inProgress[b] ==> j in tasks
    ensures forall b, c :: b in inProgress && c in inProgress && j in inProgress[b] && j in inProgress[c] ==> b == c
    ensures j in tasks ==> j in open || exists b :: b in inProgress && j in inProgress[b]
  {
    assert PlacedOpen(open, place, j);
    forall b | b in inProgress && j in inProgress[b] ensures j in tasks && place[j] == Batch(b) {
      assert PlacedBatch(inProgress, place, b, j);
    }
    if j in tasks && j !in open {
      assert PlacedBatch(inProgress, place, place[j].id, j);
    }
  }

  lemma OpenAreTasks(open: set<Job>, inProgress: map<nat, seq<Job>>, tasks: set<Job>, place: map<Job, Place>)
    requires Placed(open, inProgress, tasks, place)
    ensures open <= tasks
  {
    forall j | j in open ensures j in tasks {
      assert PlacedOpen(open, place, j);
    }
  }

  function PlaceAll(place: map<Job, Place>, js: set<Job>, p: Place): map<Job, Place> {
    map j | j in place.Keys + js :: if j in js then p else place[j]
  }

  lemma AddPlaced(open: set<Job>, inProgress: map<nat, seq<Job>>, tasks: set<Job>, place: map<Job, Place>, js: set<Job>)
    requires Placed(open, inProgress, tasks, place) && js !! tasks
    ensures Placed(open + js, inProgress, tasks + js, PlaceAll(place, js, Open))
  {
    var place' := PlaceAll(place, js, Open);
    forall j ensures PlacedOpen(open + js, place', j) {
      assert PlacedOpen(open, place, j);
    }
    forall b, j ensures PlacedBatch(inProgress, place', b, j) {
      assert PlacedBatch(inProgress, place, b, j);
    }
  }

  lemma CheckOutPlaced(open: set<Job>, inProgress: map<nat, seq<Job>>, tasks: set<Job>, place: map<Job, Place>, id: nat, batch: seq<Job>)
    requires Placed(open, inProgress, tasks, place) && id !in inProgress
    requires NoRepeat(batch) && forall j :: j in batch ==> j in open
    ensures var js := JobSet(batch);
            Placed(open - js, inProgress[id := batch], tasks, PlaceAll(place, js, Batch(id)))
  {
    var js := JobSet(batch);
    var place' := PlaceAll(place, js, Batch(id));
    OpenAreTasks(open, inProgress, tasks, place);
    assert place'.Keys == tasks;
    forall j ensures PlacedOpen(open - js, place', j) {
      assert PlacedOpen(open, place, j);
    }
    var inProgress' := inProgress[id := batch];
    forall b ensures NoRepeatIn(inProgress', b) {
      assert NoRepeatIn(inProgress, b);
    }
    forall b, j ensures PlacedBatch(inProgress', place', b, j) {
      assert PlacedBatch(inProgress, place, b, j) && PlacedOpen(open, place, j);
    }
  }

  /** Completing the tasks done of a batch, and opening the others again. */
  lemma CompletePlaced(open: set<Job>, inProgress: map<nat, seq<Job>>, tasks: set<Job>, place: map<Job, Place>, id: nat, done: set<Job>, back: set<Job>)
    requires Placed(open, inProgress, tasks, place) && id in inProgress
    requires done <= JobSet(inProgress[id]) && back == JobSet(inProgress[id]) - done
    ensures Placed(open + back, inProgress - {id}, tasks - done, PlaceAll(place, back, Open) - done)
    ensures back !! open
  {
    var place' := PlaceAll(place, back, Open) - done;
    forall j | j in back ensures j in tasks && j !in open {
      assert PlacedBatch(inProgress, place, id, j) && PlacedOpen(open, place, j);
    }
    assert place'.Keys == tasks - done;
    forall j ensures PlacedOpen(open + back, place', j) {
      assert PlacedOpen(open, place, j) && PlacedBatch(inProgress, place, id, j);
    }
    var inProgress' := inProgress - {id};
    forall b, j ensures PlacedBatch(inProgress', place', b, j) {
      assert PlacedBatch(inProgress, place, b, j) && PlacedBatch(inProgress, place, id, j);
    }
    forall b ensures NoRepeatIn(inProgress', b) {
      assert NoRepeatIn(inProgress, b);
    }
  }
}
