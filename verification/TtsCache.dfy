/** The bounded cache of synthesised prompts in front of a speech backend. */
module TtsCache {

  datatype Key = Key(text: string, voice: string, speed: real)

  type Audio = seq<bv8>

  datatype Synthesis = Spoken(audio: Audio) | Failed

  /** A deterministic backend. */
  type Backend = Key -> Synthesis

  datatype Entry = Entry(key: Key, audio: Audio)

  const MaxEntries: nat := 16
  const MaxBytes: nat := 64 * 1024 * 1024

  /** Bytes held by the entries. */
  function TotalBytes(entries: seq<Entry>): nat {
    if entries == [] then 0 else |entries[0].audio| + TotalBytes(entries[1..])
  }

  predicate WithinLimits(entries: seq<Entry>) {
    |entries| <= MaxEntries && TotalBytes(entries) <= MaxBytes
  }

  lemma {:induction false} TotalBytesAdds(a: seq<Entry>, b: seq<Entry>)
    ensures TotalBytes(a + b) == TotalBytes(a) + TotalBytes(b)
  {
    if a == [] {
      assert a + b == b;
    } else {
      assert (a + b)[1..] == a[1..] + b;
      TotalBytesAdds(a[1..], b);
    }
  }

  /** The limits in numbers: entries fit when there are at most 16 of them with at most 64 MiB of audio; another
      one fits on top when both still hold with it. */
  lemma LimitsExactly(entries: seq<Entry>, newest: Entry)
    ensures WithinLimits([])
    ensures WithinLimits(entries + [newest])
      <==> |entries| < 16 && TotalBytes(entries) + |newest.audio| <= 67_108_864
  {
    TotalBytesAdds(entries, [newest]);
    assert [newest][1..] == [];
  }

  predicate Holds(entries: seq<Entry>, key: Key) {
    exists k :: 0 <= k < |entries| && entries[k].key == key
  }

  /** Assignment to an insertion-ordered dictionary: a key already there keeps its place. */
  function Put(entries: seq<Entry>, key: Key, audio: Audio): seq<Entry> {
    if entries == [] then [Entry(key, audio)]
    else if entries[0].key == key then [Entry(key, audio)] + entries[1..]
    else [entries[0]] + Put(entries[1..], key, audio)
  }

  lemma {:induction false} PutFresh(entries: seq<Entry>, key: Key, audio: Audio)
    requires !Holds(entries, key)
    ensures Put(entries, key, audio) == entries + [Entry(key, audio)]
  {
    if entries != [] {
      var rest := entries[1..];
      assert forall k :: 0 <= k < |rest| ==> rest[k] == entries[k + 1];
      PutFresh(rest, key, audio);
    }
  }

  lemma {:induction false} PutKeepsPlace(entries: seq<Entry>, key: Key, audio: Audio, k: nat)
    requires k < |entries| && entries[k].key == key && forall j :: 0 <= j < k ==> entries[j].key != key
    ensures Put(entries, key, audio) == entries[k := Entry(key, audio)]
    decreases k
  {
    if k != 0 {
      PutKeepsPlace(entries[1..], key, audio, k - 1);
    }
  }

  /** The oldest entries dropped until the limits are met. */
  function Trimmed(entries: seq<Entry>): seq<Entry> {
    if entries == [] || WithinLimits(entries) then entries else Trimmed(entries[1..])
  }

  ghost predicate IsSuffix(part: seq<Entry>, entries: seq<Entry>) {
    |part| <= |entries| && part == entries[|entries| - |part|..]
  }

  /** Trimming keeps the longest suffix within the limits. */
  lemma {:induction false} TrimmedIsLongest(entries: seq<Entry>, other: seq<Entry>)
    ensures WithinLimits(Trimmed(entries)) && IsSuffix(Trimmed(entries), entries)
    ensures IsSuffix(other, entries) && WithinLimits(other) ==> IsSuffix(other, Trimmed(entries))
  {
    if entries != [] && !WithinLimits(entries) {
      TrimmedIsLongest(entries[1..], other);
      assert forall k :: 1 <= k <= |entries| ==> entries[1..][k - 1..] == entries[k..];
      if |other| == |entries| && IsSuffix(other, entries) {
        assert entries[0..] == entries;
      }
    }
  }

  /** An entry that fits by itself is still there after trimming, in last place. */
  lemma NewestSurvives(entries: seq<Entry>, newest: Entry)
    requires |newest.audio| <= MaxBytes
    ensures var kept := Trimmed(entries + [newest]); kept != [] && kept[|kept| - 1] == newest
  {
    var all := entries + [newest];
    assert all[|entries|..] == [newest];
    assert TotalBytes([newest]) == |newest.audio| by { assert [newest][1..] == []; }
    TrimmedIsLongest(all, [newest]);
  }

  /** Keys are distinct and every entry is what the backend says. */
  ghost predicate Truthful(entries: seq<Entry>, backend: Backend) {
    && (forall i, j :: 0 <= i < j < |entries| ==> entries[i].key != entries[j].key)
    && (forall k :: 0 <= k < |entries| ==> backend(entries[k].key) == Spoken(entries[k].audio))
  }

  lemma InsertKeepsTruth(entries: seq<Entry>, backend: Backend, key: Key, audio: Audio)
    requires Truthful(entries, backend) && !Holds(entries, key) && backend(key) == Spoken(audio)
    ensures Truthful(Trimmed(entries + [Entry(key, audio)]), backend)
    ensures WithinLimits(Trimmed(entries + [Entry(key, audio)]))
  {
    var grown := entries + [Entry(key, audio)];
    assert Truthful(grown, backend);
    TrimmedIsLongest(grown, []);
    var kept := Trimmed(grown);
    assert forall k :: 0 <= k < |kept| ==> kept[k] == grown[|grown| - |kept| + k];
  }

  class SpeechTtsServicer {
    var backend: Backend
    var cache: seq<Entry>

    ghost predicate Valid()
      reads this
    {
      Truthful(cache, backend) && WithinLimits(cache)
    }

    constructor (backend: Backend)
      ensures Valid() && this.backend == backend && cache == []
    {
      this.backend := backend;
      cache := [];
    }

    /** Another backend starts with nothing cached. */
    method ConfigureBackend(backend: Backend)
      modifies this
      ensures Valid() && this.backend == backend && cache == []
    {
      this.backend := backend;
      cache := [];
    }

    method Get(key: Key) returns (cached: Synthesis)
      requires Valid()
      ensures cached == if Holds(cache, key) then backend(key) else Failed
    {
      for k := 0 to |cache|
        invariant forall i :: 0 <= i < k ==> cache[i].key != key
      {
        if cache[k].key == key {
          return Spoken(cache[k].audio);
        }
      }
      return Failed;
    }

    /** Every call returns what the current backend synthesises. A hit, a failure and an oversized
        answer leave the cache alone; anything else is appended and the cache trimmed. */
    method SynthesizeCached(key: Key) returns (r: Synthesis)
      requires Valid()
      modifies this`cache
      ensures Valid() && r == backend(key)
      ensures cache == if Holds(old(cache), key) || r.Failed? || |r.audio| > MaxBytes then old(cache)
                       else Trimmed(old(cache) + [Entry(key, r.audio)])
    {
      var cached := Get(key);
      if cached.Spoken? {
        return cached;
      }
      r := backend(key);
      if r.Failed? || |r.audio| > MaxBytes {
        return;
      }
      InsertKeepsTruth(cache, backend, key, r.audio);
      Insert(key, r.audio);
    }

    /** Stores an answer and evicts the oldest entries while a limit is exceeded. */
    method Insert(key: Key, audio: Audio)
      requires !Holds(cache, key)
      modifies this`cache
      ensures cache == Trimmed(old(cache) + [Entry(key, audio)])
    {
      PutFresh(cache, key, audio);
      cache := Put(cache, key, audio);
      while cache != [] && (|cache| > MaxEntries || TotalBytes(cache) > MaxBytes)
        invariant Trimmed(cache) == Trimmed(old(cache) + [Entry(key, audio)])
        decreases |cache|
      {
        cache := cache[1..];
      }
    }
  }
}
