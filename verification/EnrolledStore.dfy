/** The enrolled-speaker store: an ordered dictionary in memory, saved to one file after each change
    and rolled back when the save fails. */
module EnrolledStore {

  type Embedding = seq<real>

  /** The cosine of two embeddings is an input. */
  type Similarity = (Embedding, Embedding) -> real

  ghost predicate NonZero(e: Embedding) {
    exists k :: 0 <= k < |e| && e[k] != 0.0
  }

  /** What is used of the cosine: symmetric, and 1 between a non-zero embedding and itself. */
  ghost predicate IsCosine(similarity: Similarity) {
    && (forall a, b :: similarity(a, b) == similarity(b, a))
    && (forall e :: NonZero(e) ==> similarity(e, e) == 1.0)
  }

  datatype User = User(id: string, name: string, embedding: Embedding)

  /** Users in insertion order, and the users in the saved file. */
  datatype Store = Store(data: seq<User>, file: seq<User>)

  datatype Identified = Identified(id: string, name: string, score: real, known: bool)

  datatype Outcome = Enrolled | DuplicateId | DuplicateName | DuplicateVoice | Deleted | SaveFailed

  // ---------------------------------------------------------------- identification

  /** The first of the users below k closest to the query, if any scores above -1. */
  function BestBelow(similarity: Similarity, data: seq<User>, query: Embedding, k: nat): (b: (int, real))
    requires k <= |data|
    ensures -1 <= b.0 < k
  {
    if k == 0 then (-1, -1.0)
    else
      var best := BestBelow(similarity, data, query, k - 1);
      var score := similarity(query, data[k - 1].embedding);
      if score > best.1 then (k - 1, score) else best
  }

  ghost function Identify(similarity: Similarity, data: seq<User>, query: Embedding, threshold: real): Identified {
    var best := BestBelow(similarity, data, query, |data|);
    if best.0 < 0 then Identified("", "", -1.0, -1.0 >= threshold)
    else Identified(data[best.0].id, data[best.0].name, best.1, best.1 >= threshold)
  }

  /** The best score is at least every score, and it is the score of the chosen user, who is the first
      to reach it. */
  lemma {:induction false} BestBelowFacts(similarity: Similarity, data: seq<User>, query: Embedding, k: nat)
    requires k <= |data|
    ensures var b := BestBelow(similarity, data, query, k);
      && (forall i :: 0 <= i < k ==> similarity(query, data[i].embedding) <= b.1)
      && (b.0 >= 0 ==> b.1 == similarity(query, data[b.0].embedding) > -1.0)
      && (forall i :: 0 <= i < b.0 ==> similarity(query, data[i].embedding) < b.1)
      && (b.0 < 0 ==> b.1 == -1.0)
  {
    if k != 0 {
      BestBelowFacts(similarity, data, query, k - 1);
    }
  }

  /** The query is recognised exactly when some stored voice reaches the threshold. */
  lemma KnownExactly(similarity: Similarity, data: seq<User>, query: Embedding, threshold: real)
    requires threshold > -1.0
    ensures Identify(similarity, data, query, threshold).known <==>
      exists k :: 0 <= k < |data| && similarity(query, data[k].embedding) >= threshold
  {
    BestBelowFacts(similarity, data, query, |data|);
  }

  /** Who is named: the first stored user with the highest score above -1, or nobody when no score is. */
  lemma FirstBestIsNamed(similarity: Similarity, data: seq<User>, query: Embedding, threshold: real)
    ensures var r := Identify(similarity, data, query, threshold);
      && (r.known <==> r.score >= threshold)
      && ((r.id == "" && r.name == "" && r.score == -1.0
           && forall i :: 0 <= i < |data| ==> similarity(query, data[i].embedding) <= -1.0)
          || exists k :: 0 <= k < |data| && r.id == data[k].id && r.name == data[k].name
               && r.score == similarity(query, data[k].embedding) > -1.0
               && (forall i :: 0 <= i < |data| ==> similarity(query, data[i].embedding) <= r.score)
               && (forall i :: 0 <= i < k ==> similarity(query, data[i].embedding) < r.score))
  {
    BestBelowFacts(similarity, data, query, |data|);
    var b := BestBelow(similarity, data, query, |data|);
    if b.0 >= 0 {
      assert Identify(similarity, data, query, threshold).id == data[b.0].id;
    }
  }

  // ---------------------------------------------------------------- the steps

  predicate HasId(data: seq<User>, id: string) {
    exists k :: 0 <= k < |data| && data[k].id == id
  }

  predicate HasName(data: seq<User>, name: string) {
    exists k :: 0 <= k < |data| && data[k].name == name
  }

  function Without(data: seq<User>, id: string): seq<User> {
    if data == [] then [] else if data[0].id == id then data[1..] else [data[0]] + Without(data[1..], id)
  }

  function Find(data: seq<User>, id: string): User
    requires HasId(data, id)
  {
    if data[0].id == id then data[0] else Find(data[1..], id)
  }

  /** A refused enrolment and a failed save change nothing; a completed one appends the user to memory
      and file. */
  ghost function AfterEnrol(similarity: Similarity, s: Store, user: User, threshold: real, saves: bool): (Store, Outcome) {
    if HasId(s.data, user.id) then (s, DuplicateId)
    else if user.name != "" && HasName(s.data, user.name) then (s, DuplicateName)
    else if s.data != [] && Identify(similarity, s.data, user.embedding, threshold).known then (s, DuplicateVoice)
    else if !saves then (s, SaveFailed)
    else (Store(s.data + [user], s.data + [user]), Enrolled)
  }

  /** Deleting an unknown user does nothing; a failed delete puts the user back, in last place. */
  ghost function AfterDelete(s: Store, id: string, saves: bool): (Store, Outcome) {
    if !HasId(s.data, id) then (s, Deleted)
    else if !saves then (Store(Without(s.data, id) + [Find(s.data, id)], s.file), SaveFailed)
    else (Store(Without(s.data, id), Without(s.data, id)), Deleted)
  }

  /** A store opened on the file starts from what was saved. */
  ghost function AfterRestart(s: Store): Store {
    Store(s.file, s.file)
  }

  // ---------------------------------------------------------------- when a step succeeds

  /** When an enrolment is accepted, and why not otherwise, in terms of the stored users: the causes are
      looked for in this order, and each outcome means its own cause and none before it. A threshold of at
      most -1 is met by every stored voice. */
  lemma EnrolExactly(similarity: Similarity, s: Store, user: User, threshold: real, saves: bool)
    ensures
      var (after, outcome) := AfterEnrol(similarity, s, user, threshold, saves);
      var sameId := exists k :: 0 <= k < |s.data| && s.data[k].id == user.id;
      var sameName := user.name != "" && exists k :: 0 <= k < |s.data| && s.data[k].name == user.name;
      var closeVoice := exists k :: 0 <= k < |s.data| && similarity(user.embedding, s.data[k].embedding) >= threshold;
      var sameVoice := closeVoice || (threshold <= -1.0 && s.data != []);
      && (outcome == DuplicateId <==> sameId)
      && (outcome == DuplicateName <==> !sameId && sameName)
      && (outcome == DuplicateVoice <==> !sameId && !sameName && sameVoice)
      && (outcome == SaveFailed <==> !sameId && !sameName && !sameVoice && !saves)
      && (outcome == Enrolled <==> !sameId && !sameName && !sameVoice && saves)
      && after == if outcome == Enrolled then Store(s.data + [user], s.data + [user]) else s
  {
    BestBelowFacts(similarity, s.data, user.embedding, |s.data|);
  }

  /** Deleting removes the user with the id and keeps the others in order; an unknown id changes nothing. A
      failed save leaves the file alone and the user in last place. */
  lemma DeleteExactly(s: Store, id: string, saves: bool)
    ensures (forall k :: 0 <= k < |s.data| ==> s.data[k].id != id) ==> AfterDelete(s, id, saves) == (s, Deleted)
    ensures forall k :: 0 <= k < |s.data| && s.data[k].id == id && (forall j :: 0 <= j < k ==> s.data[j].id != id) ==>
      var rest := s.data[..k] + s.data[k + 1..];
      AfterDelete(s, id, saves)
      == if saves then (Store(rest, rest), Deleted) else (Store(rest + [s.data[k]], s.file), SaveFailed)
  {
    forall k | 0 <= k < |s.data| && s.data[k].id == id && (forall j :: 0 <= j < k ==> s.data[j].id != id)
      ensures HasId(s.data, id) && Find(s.data, id) == s.data[k]
      ensures Without(s.data, id) == s.data[..k] + s.data[k + 1..]
    {
      FirstWithId(s.data, id, k);
    }
  }

  lemma {:induction false} FirstWithId(data: seq<User>, id: string, k: nat)
    requires k < |data| && data[k].id == id && forall j :: 0 <= j < k ==> data[j].id != id
    ensures HasId(data, id) && Find(data, id) == data[k]
    ensures Without(data, id) == data[..k] + data[k + 1..]
    decreases k
  {
    if k != 0 {
      var rest := data[1..];
      assert rest[k - 1] == data[k];
      FirstWithId(rest, id, k - 1);
      assert [data[0]] + rest[..k - 1] == data[..k] && rest[k..] == data[k + 1..];
    }
  }

  // ---------------------------------------------------------------- the invariant over all runs

  ghost predicate DistinctIds(data: seq<User>) {
    forall i, j :: 0 <= i < j < |data| ==> data[i].id != data[j].id
  }

  /** Users have different ids, different non-empty names, and voices below the threshold apart. */
  ghost predicate Distinct(similarity: Similarity, data: seq<User>, threshold: real) {
    && DistinctIds(data)
    && (forall u, v :: u in data && v in data && u != v ==>
         (u.name != "" ==> u.name != v.name) && similarity(u.embedding, v.embedding) < threshold)
  }

  ghost predicate SameUsers(a: seq<User>, b: seq<User>) {
    forall u :: u in a <==> u in b
  }

  ghost predicate Inv(similarity: Similarity, s: Store, threshold: real) {
    && Distinct(similarity, s.data, threshold) && Distinct(similarity, s.file, threshold)
    && SameUsers(s.data, s.file)
  }

  datatype Step = Enrol(user: User, saves: bool) | Delete(id: string, saves: bool) | Restart

  ghost function After(similarity: Similarity, s: Store, threshold: real, step: Step): Store {
    match step
    case Enrol(user, saves) => AfterEnrol(similarity, s, user, threshold, saves).0
    case Delete(id, saves) => AfterDelete(s, id, saves).0
    case Restart => AfterRestart(s)
  }

  ghost function AfterRun(similarity: Similarity, threshold: real, steps: seq<Step>): Store {
    if steps == [] then Store([], [])
    else After(similarity, AfterRun(similarity, threshold, steps[..|steps| - 1]), threshold, steps[|steps| - 1])
  }

  lemma {:induction false} FindFacts(data: seq<User>, id: string)
    requires HasId(data, id)
    ensures Find(data, id) in data && Find(data, id).id == id
  {
    if data[0].id != id {
      var k :| 0 <= k < |data| && data[k].id == id;
      assert data[1..][k - 1].id == id;
      FindFacts(data[1..], id);
    }
  }

  lemma {:induction false} WithoutMembers(data: seq<User>, id: string)
    requires DistinctIds(data)
    ensures forall u :: u in Without(data, id) <==> u in data && u.id != id
  {
    if data != [] {
      var first, rest := data[0], data[1..];
      assert forall k :: 0 <= k < |rest| ==> rest[k] == data[k + 1];
      assert forall u :: u in data <==> u == first || u in rest;
      if first.id != id {
        WithoutMembers(rest, id);
      }
    }
  }

  lemma {:induction false} WithoutIsDistinct(data: seq<User>, id: string)
    requires DistinctIds(data)
    ensures DistinctIds(Without(data, id))
  {
    if data != [] {
      var first, rest := data[0], data[1..];
      assert forall k :: 0 <= k < |rest| ==> rest[k] == data[k + 1];
      if first.id != id {
        WithoutIsDistinct(rest, id);
        WithoutMembers(rest, id);
        var less := Without(rest, id);
        forall k | 0 <= k < |less| ensures less[k].id != first.id {
          assert less[k] in rest;
        }
      }
    }
  }

  lemma WithoutFacts(data: seq<User>, id: string)
    requires DistinctIds(data)
    ensures DistinctIds(Without(data, id))
    ensures forall u :: u in Without(data, id) <==> u in data && u.id != id
  {
    WithoutMembers(data, id);
    WithoutIsDistinct(data, id);
  }

  lemma AppendKeepsDistinct(similarity: Similarity, data: seq<User>, user: User, threshold: real)
    requires Distinct(similarity, data, threshold)
    requires !HasId(data, user.id) && (user.name != "" ==> !HasName(data, user.name))
    requires forall u :: u in data ==>
      similarity(user.embedding, u.embedding) < threshold && similarity(u.embedding, user.embedding) < threshold
    ensures Distinct(similarity, data + [user], threshold)
  {
  }

  lemma EnrolKeeps(similarity: Similarity, s: Store, user: User, threshold: real, saves: bool)
    requires IsCosine(similarity) && Inv(similarity, s, threshold)
    ensures Inv(similarity, AfterEnrol(similarity, s, user, threshold, saves).0, threshold)
  {
    if AfterEnrol(similarity, s, user, threshold, saves).1 == Enrolled {
      BestBelowFacts(similarity, s.data, user.embedding, |s.data|);
      forall u | u in s.data
        ensures similarity(user.embedding, u.embedding) < threshold && similarity(u.embedding, user.embedding) < threshold
      {
        assert similarity(u.embedding, user.embedding) == similarity(user.embedding, u.embedding);
      }
      AppendKeepsDistinct(similarity, s.data, user, threshold);
    }
  }

  lemma DeleteKeeps(similarity: Similarity, s: Store, id: string, threshold: real, saves: bool)
    requires Inv(similarity, s, threshold)
    ensures Inv(similarity, AfterDelete(s, id, saves).0, threshold)
  {
    if HasId(s.data, id) {
      WithoutFacts(s.data, id);
      FindFacts(s.data, id);
      var rest, user := Without(s.data, id), Find(s.data, id);
      assert Distinct(similarity, rest, threshold);
      assert forall u :: u in rest + [user] <==> u in s.data;
    }
  }

  /** Over every run from an empty store, with saves failing at will and restarts in between: memory
      and file hold the same users, pairwise distinct in id, name and voice. */
  lemma {:induction false} EveryRunKeeps(similarity: Similarity, threshold: real, steps: seq<Step>)
    requires IsCosine(similarity)
    ensures Inv(similarity, AfterRun(similarity, threshold, steps), threshold)
  {
    if steps != [] {
      var before := AfterRun(similarity, threshold, steps[..|steps| - 1]);
      EveryRunKeeps(similarity, threshold, steps[..|steps| - 1]);
      match steps[|steps| - 1]
      case Enrol(user, saves) => EnrolKeeps(similarity, before, user, threshold, saves);
      case Delete(id, saves) => DeleteKeeps(similarity, before, id, threshold, saves);
      case Restart =>
    }
  }

  /** A restart at any time keeps every user, and brings back nobody who was deleted. */
  lemma RestartKeepsUsers(similarity: Similarity, threshold: real, steps: seq<Step>)
    requires IsCosine(similarity)
    ensures var restarted := AfterRun(similarity, threshold, steps + [Restart]);
      && (forall u :: u in restarted.data <==> u in AfterRun(similarity, threshold, steps).data)
      && restarted.data == restarted.file == AfterRun(similarity, threshold, steps).file
  {
    assert (steps + [Restart])[..|steps|] == steps;
    EveryRunKeeps(similarity, threshold, steps);
  }

  /** So a stored voice is recognised as its owner's. */
  lemma OwnerIsIdentified(similarity: Similarity, threshold: real, steps: seq<Step>, u: User)
    requires IsCosine(similarity) && 0.0 <= threshold <= 1.0
    requires u in AfterRun(similarity, threshold, steps).data && NonZero(u.embedding)
    ensures Identify(similarity, AfterRun(similarity, threshold, steps).data, u.embedding, threshold)
         == Identified(u.id, u.name, 1.0, true)
  {
    var data := AfterRun(similarity, threshold, steps).data;
    EveryRunKeeps(similarity, threshold, steps);
    BestBelowFacts(similarity, data, u.embedding, |data|);
    var b := BestBelow(similarity, data, u.embedding, |data|);
    var k :| 0 <= k < |data| && data[k] == u;
    assert similarity(u.embedding, data[k].embedding) == 1.0;
    assert data[b.0] in data;
  }

  /** Enrolling and then deleting a new user restores the users, whatever else is stored. */
  lemma DeleteUndoesEnrol(similarity: Similarity, s: Store, user: User, threshold: real)
    requires AfterEnrol(similarity, s, user, threshold, true).1 == Enrolled
    ensures AfterDelete(AfterEnrol(similarity, s, user, threshold, true).0, user.id, true) == (Store(s.data, s.data), Deleted)
  {
    WithoutLast(s.data, user);
    assert (s.data + [user])[|s.data|].id == user.id;
  }

  lemma {:induction false} WithoutLast(data: seq<User>, user: User)
    requires !HasId(data, user.id)
    ensures Without(data + [user], user.id) == data
  {
    if data != [] {
      assert data[0].id != user.id;
      assert (data + [user])[1..] == data[1..] + [user];
      assert forall k :: 0 <= k < |data[1..]| ==> data[1..][k] == data[k + 1];
      WithoutLast(data[1..], user);
    }
  }

  // ---------------------------------------------------------------- the class

  class EnrolledDB {
    const similarity: Similarity
    var data: seq<User>
    var file: seq<User>

    ghost function State(): Store
      reads this
    {
      Store(data, file)
    }

    /** Opens the store on a file; a missing file is an empty one. */
    constructor (similarity: Similarity, file: seq<User>)
      ensures this.similarity == similarity && State() == Store(file, file)
    {
      this.similarity := similarity;
      this.data := file;
      this.file := file;
    }

    /** The whole snapshot replaces the file, or the file stays as it was. */
    method SaveLocked(succeeds: bool) returns (saved: bool)
      modifies this`file
      ensures saved == succeeds && file == if succeeds then data else old(file)
    {
      if succeeds {
        file := data;
      }
      saved := succeeds;
    }

    method IdentifyLocked(query: Embedding, threshold: real) returns (r: Identified)
      ensures r == Identify(similarity, data, query, threshold)
    {
      var bestId, bestName, bestScore := "", "", -1.0;
      for k := 0 to |data|
        invariant var b := BestBelow(similarity, data, query, k);
          && bestScore == b.1
          && bestId == (if b.0 < 0 then "" else data[b.0].id)
          && bestName == (if b.0 < 0 then "" else data[b.0].name)
      {
        var score := similarity(query, data[k].embedding);
        if score > bestScore {
          bestId, bestName, bestScore := data[k].id, data[k].name, score;
        }
      }
      BestBelowFacts(similarity, data, query, |data|);
      r := Identified(bestId, bestName, bestScore, bestScore >= threshold);
    }

    method EnrollUnique(user: User, threshold: real, saves: bool) returns (outcome: Outcome)
      modifies this
      ensures (State(), outcome) == AfterEnrol(similarity, old(State()), user, threshold, saves)
    {
      if HasId(data, user.id) {
        return DuplicateId;
      }
      if user.name != "" && HasName(data, user.name) {
        return DuplicateName;
      }
      if data != [] {
        var best := IdentifyLocked(user.embedding, threshold);
        if best.known {
          return DuplicateVoice;
        }
      }
      data := data + [user];
      var saved := SaveLocked(saves);
      if !saved {
        WithoutLast(old(data), user);
        data := Without(data, user.id);
        return SaveFailed;
      }
      outcome := Enrolled;
    }

    method DeleteUser(id: string, saves: bool) returns (outcome: Outcome)
      modifies this
      ensures (State(), outcome) == AfterDelete(old(State()), id, saves)
    {
      if HasId(data, id) {
        var existing := Find(data, id);
        data := Without(data, id);
        var saved := SaveLocked(saves);
        if !saved {
          data := data + [existing];
          return SaveFailed;
        }
      }
      outcome := Deleted;
    }
  }
}
