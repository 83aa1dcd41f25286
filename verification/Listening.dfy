/** What a store tells its handlers about its content, and a listener that only hears that. */
module Listening {
  import opened Basics

  /** One entry of a handler call: OnAdded, OnChanged and OnRemoved take lists of these. */
  datatype Note<K, V> =
    | Added(id: K, value: V)
    | Changed(id: K, previous: V, current: V)
    | Removed(id: K, value: V)

  /** What the `Equals` methods of stored values must be. */
  ghost predicate Equivalence<V(!new)>(eq: (V, V) -> bool) {
    && (forall a :: eq(a, a))
    && (forall a, b :: eq(a, b) ==> eq(b, a))
    && (forall a, b, c :: eq(a, b) && eq(b, c) ==> eq(a, c))
  }

  // ---------- the listener ----------

  /** A listener applies a note to its own copy; a note that does not fit the copy, in the values it gives for what was
      there before too, is an error. */
  function Hear<K(==), V>(m: map<K, V>, note: Note<K, V>, eq: (V, V) -> bool): Option<map<K, V>> {
    match note
    case Added(id, value) => if id in m then None else Some(m[id := value])
    case Changed(id, previous, current) => if id in m && eq(m[id], previous) then Some(m[id := current]) else None
    case Removed(id, value) => if id in m && eq(m[id], value) then Some(m - {id}) else None
  }

  function HearAll<K(==), V>(m: map<K, V>, notes: seq<Note<K, V>>, eq: (V, V) -> bool): Option<map<K, V>> {
    if notes == [] then Some(m)
    else
      match HearAll(m, notes[..|notes| - 1], eq)
      case None => None
      case Some(m') => Hear(m', notes[|notes| - 1], eq)
  }

  lemma {:induction false} HearAppend<K, V>(m: map<K, V>, a: seq<Note<K, V>>, b: seq<Note<K, V>>, eq: (V, V) -> bool)
    requires HearAll(m, a, eq).Some?
    ensures HearAll(m, a + b, eq) == HearAll(HearAll(m, a, eq).value, b, eq)
  {
    if b == [] {
      assert a + b == a;
    } else {
      HearAppend(m, a, b[..|b| - 1], eq);
      assert (a + b)[..|a + b| - 1] == a + b[..|b| - 1];
    }
  }

  /** The copy has the same keys, with values equal up to `eq`. */
  ghost predicate Mirrors<K(!new), V>(m: map<K, V>, data: map<K, V>, eq: (V, V) -> bool) {
    && (forall k :: k in m <==> k in data)
    && (forall k :: k in m && k in data ==> eq(m[k], data[k]))
  }

  /** A listener seeded with `seed` that hears all the notes mirrors `data`. */
  ghost predicate Follows<K(!new), V>(seed: map<K, V>, notes: seq<Note<K, V>>, data: map<K, V>, eq: (V, V) -> bool) {
    HearAll(seed, notes, eq).Some? && Mirrors(HearAll(seed, notes, eq).value, data, eq)
  }

  // ---------- the notes about a change of content ----------

  /** The note that is due for one key. */
  function NoteFor<K, V>(id: K, before: Option<V>, now: Option<V>, eq: (V, V) -> bool): Option<Note<K, V>> {
    match (before, now)
    case (None, None) => None
    case (None, Some(v)) => Some(Added(id, v))
    case (Some(u), None) => Some(Removed(id, u))
    case (Some(u), Some(v)) => if eq(u, v) then None else Some(Changed(id, u, v))
  }

  function Due<K, V>(id: K, old_: map<K, V>, new_: map<K, V>, eq: (V, V) -> bool): Option<Note<K, V>> {
    NoteFor(id, Get(old_, id), Get(new_, id), eq)
  }

  ghost predicate DistinctIds<K, V>(notes: seq<Note<K, V>>) {
    forall i, j :: 0 <= i < j < |notes| ==> notes[i].id != notes[j].id
  }

  /** Exactly the notes that are due, each once. */
  ghost predicate IsDiff<K(!new), V(!new)>(old_: map<K, V>, new_: map<K, V>, eq: (V, V) -> bool,
                                           notes: seq<Note<K, V>>) {
    && DistinctIds(notes)
    && (forall i :: 0 <= i < |notes| ==> Due(notes[i].id, old_, new_, eq) == Some(notes[i]))
    && (forall id :: Due(id, old_, new_, eq).Some? ==> Due(id, old_, new_, eq).value in notes)
  }

  predicate Mentions<K(==), V>(notes: seq<Note<K, V>>, id: K) {
    exists i :: 0 <= i < |notes| && notes[i].id == id
  }

  lemma MentionsNext<K, V>(notes: seq<Note<K, V>>, n: nat, id: K)
    requires n < |notes|
    ensures Mentions(notes[..n + 1], id) <==> Mentions(notes[..n], id) || id == notes[n].id
  {
    if Mentions(notes[..n], id) {
      var i :| 0 <= i < n && notes[..n][i].id == id;
      assert notes[..n + 1][i].id == id;
    }
    assert notes[..n + 1][n].id == notes[n].id;
  }

  /** A note that is due fits a mirror that has not heard of its key yet. */
  lemma DueFits<K(!new), V>(m: map<K, V>, m': map<K, V>, old_: map<K, V>, new_: map<K, V>, eq: (V, V) -> bool,
                            note: Note<K, V>)
    requires Mirrors(m, old_, eq) && Due(note.id, old_, new_, eq) == Some(note)
    requires Get(m', note.id) == Get(m, note.id)
    ensures Hear(m', note, eq).Some?
    ensures forall id :: Get(Hear(m', note, eq).value, id) == if id == note.id then Get(new_, id) else Get(m', id)
  {
    assert note.id in m <==> note.id in old_;
  }

  lemma {:induction false} HearPrefix<K(!new), V(!new)>(m: map<K, V>, old_: map<K, V>, new_: map<K, V>,
                                                        eq: (V, V) -> bool, notes: seq<Note<K, V>>, n: nat)
    requires Mirrors(m, old_, eq) && IsDiff(old_, new_, eq, notes) && n <= |notes|
    ensures HearAll(m, notes[..n], eq).Some?
    ensures forall id ::
      Get(HearAll(m, notes[..n], eq).value, id)
        == if Mentions(notes[..n], id) then Get(new_, id) else Get(m, id)
    decreases n
  {
    if n > 0 {
      HearPrefix(m, old_, new_, eq, notes, n - 1);
      assert notes[..n][..n - 1] == notes[..n - 1];
      var m' := HearAll(m, notes[..n - 1], eq).value;
      assert !Mentions(notes[..n - 1], notes[n - 1].id);
      DueFits(m, m', old_, new_, eq, notes[n - 1]);
      forall id
        ensures Get(HearAll(m, notes[..n], eq).value, id)
          == if Mentions(notes[..n], id) then Get(new_, id) else Get(m, id)
      {
        MentionsNext(notes, n - 1, id);
      }
    }
  }

  lemma DueIsMentioned<K(!new), V(!new)>(old_: map<K, V>, new_: map<K, V>, eq: (V, V) -> bool, notes: seq<Note<K, V>>,
                                         id: K)
    requires IsDiff(old_, new_, eq, notes) && Due(id, old_, new_, eq).Some?
    ensures Mentions(notes, id)
  {
    var i :| 0 <= i < |notes| && notes[i] == Due(id, old_, new_, eq).value;
    assert notes[i].id == id;
  }

  lemma UnmentionedIsEqual<K(!new), V(!new)>(old_: map<K, V>, new_: map<K, V>, eq: (V, V) -> bool,
                                             notes: seq<Note<K, V>>, id: K)
    requires IsDiff(old_, new_, eq, notes) && !Mentions(notes, id)
    ensures id in old_ <==> id in new_
    ensures id in old_ ==> eq(old_[id], new_[id])
  {
    if Due(id, old_, new_, eq).Some? {
      DueIsMentioned(old_, new_, eq, notes, id);
    }
  }

  /** Hearing the notes about a change turns a mirror of the old content into a mirror of the new. */
  lemma DiffIsHeard<K(!new), V(!new)>(m: map<K, V>, old_: map<K, V>, new_: map<K, V>, eq: (V, V) -> bool,
                                      notes: seq<Note<K, V>>)
    requires Equivalence(eq) && Mirrors(m, old_, eq) && IsDiff(old_, new_, eq, notes)
    ensures HearAll(m, notes, eq).Some? && Mirrors(HearAll(m, notes, eq).value, new_, eq)
  {
    HearPrefix(m, old_, new_, eq, notes, |notes|);
    assert notes[..|notes|] == notes;
    var m' := HearAll(m, notes, eq).value;
    forall id
      ensures id in m' <==> id in new_
      ensures id in m' && id in new_ ==> eq(m'[id], new_[id])
    {
      assert Get(m', id) == if Mentions(notes, id) then Get(new_, id) else Get(m, id);
      if !Mentions(notes, id) {
        UnmentionedIsEqual(old_, new_, eq, notes, id);
      }
    }
  }

  lemma FollowsOn<K(!new), V(!new)>(seed: map<K, V>, heard: seq<Note<K, V>>, old_: map<K, V>, new_: map<K, V>,
                                    eq: (V, V) -> bool, notes: seq<Note<K, V>>)
    requires Equivalence(eq) && Follows(seed, heard, old_, eq) && IsDiff(old_, new_, eq, notes)
    ensures Follows(seed, heard + notes, new_, eq)
  {
    HearAppend(seed, heard, notes, eq);
    DiffIsHeard(HearAll(seed, heard, eq).value, old_, new_, eq, notes);
  }

  function NotesOf<K, V>(note: Option<Note<K, V>>): seq<Note<K, V>> {
    match note
    case None => []
    case Some(n) => [n]
  }

  /** Where the content differs in one key only, the note for that key is all there is to tell. */
  lemma OneKeyDiff<K(!new), V(!new)>(old_: map<K, V>, new_: map<K, V>, id: K, eq: (V, V) -> bool)
    requires Equivalence(eq) && forall k :: k != id ==> Get(old_, k) == Get(new_, k)
    ensures IsDiff(old_, new_, eq, NotesOf(Due(id, old_, new_, eq)))
  {
    forall k | k != id
      ensures Due(k, old_, new_, eq) == None
    {
    }
  }

  // ---------- putting changes together ----------

  /** The notes that are due, counted without their order. */
  ghost predicate Counts<K(!new), V(!new)>(old_: map<K, V>, new_: map<K, V>, eq: (V, V) -> bool,
                                           notes: multiset<Note<K, V>>) {
    && (forall note :: note in notes ==> Due(note.id, old_, new_, eq) == Some(note) && notes[note] == 1)
    && (forall id :: Due(id, old_, new_, eq).Some? ==> Due(id, old_, new_, eq).value in notes)
  }

  lemma {:induction false} DistinctOnce<K, V>(notes: seq<Note<K, V>>, note: Note<K, V>)
    requires DistinctIds(notes) && note in notes
    ensures multiset(notes)[note] == 1
  {
    var init, last := notes[..|notes| - 1], notes[|notes| - 1];
    assert notes == init + [last];
    assert multiset(notes) == multiset(init) + multiset{last};
    if note in init {
      DistinctOnce(init, note);
    }
  }

  lemma OnceDistinct<K, V>(notes: seq<Note<K, V>>, i: nat, j: nat)
    requires i < j < |notes| && notes[i] == notes[j]
    ensures multiset(notes)[notes[i]] >= 2
  {
    assert notes == notes[..j] + ([notes[j]] + notes[j + 1..]);
    assert multiset(notes) == multiset(notes[..j]) + (multiset{notes[j]} + multiset(notes[j + 1..]));
    assert notes[..j][i] in multiset(notes[..j]);
  }

  lemma DiffCounts<K(!new), V(!new)>(old_: map<K, V>, new_: map<K, V>, eq: (V, V) -> bool, notes: seq<Note<K, V>>)
    ensures IsDiff(old_, new_, eq, notes) <==> Counts(old_, new_, eq, multiset(notes))
  {
    if IsDiff(old_, new_, eq, notes) {
      forall note | note in multiset(notes)
        ensures Due(note.id, old_, new_, eq) == Some(note) && multiset(notes)[note] == 1
      {
        assert note in notes;
        DistinctOnce(notes, note);
      }
    }
    if Counts(old_, new_, eq, multiset(notes)) {
      forall i, j | 0 <= i < j < |notes|
        ensures notes[i].id != notes[j].id
      {
        assert notes[i] in multiset(notes) && notes[j] in multiset(notes);
        if notes[i] == notes[j] {
          OnceDistinct(notes, i, j);
        }
      }
      forall i | 0 <= i < |notes|
        ensures Due(notes[i].id, old_, new_, eq) == Some(notes[i])
      {
        assert notes[i] in multiset(notes);
      }
    }
  }

  /** Two changes that touch different keys. */
  ghost predicate Apart<K(!new), V>(a: map<K, V>, b: map<K, V>, c: map<K, V>) {
    forall k :: Get(a, k) == Get(b, k) || Get(b, k) == Get(c, k)
  }

  lemma CountsJoin<K(!new), V(!new)>(a: map<K, V>, b: map<K, V>, c: map<K, V>, eq: (V, V) -> bool,
                                     m: multiset<Note<K, V>>, n: multiset<Note<K, V>>)
    requires Equivalence(eq) && Apart(a, b, c) && Counts(a, b, eq, m) && Counts(b, c, eq, n)
    ensures Counts(a, c, eq, m + n)
  {
    forall id
      ensures Due(id, a, c, eq) == if Due(id, a, b, eq).Some? then Due(id, a, b, eq) else Due(id, b, c, eq)
      ensures Due(id, a, b, eq).None? || Due(id, b, c, eq).None?
    {
      assert Get(a, id) == Get(b, id) || Get(b, id) == Get(c, id);
    }
    forall note | note in m + n
      ensures Due(note.id, a, c, eq) == Some(note) && (m + n)[note] == 1
    {
      assert note in m ==> Due(note.id, b, c, eq).None? && note !in n;
    }
  }

  /** The notes about two changes that touch different keys, collected list by list. */
  lemma DiffsJoin<K(!new), V(!new)>(a: map<K, V>, b: map<K, V>, c: map<K, V>, eq: (V, V) -> bool,
                                    added: seq<Note<K, V>>, changes: seq<Note<K, V>>, removed: seq<Note<K, V>>,
                                    added': seq<Note<K, V>>, changes': seq<Note<K, V>>, removed': seq<Note<K, V>>)
    requires Equivalence(eq) && Apart(a, b, c)
    requires IsDiff(a, b, eq, added + changes + removed) && IsDiff(b, c, eq, added' + changes' + removed')
    ensures IsDiff(a, c, eq, (added + added') + (changes + changes') + (removed + removed'))
  {
    var m, n := multiset(added + changes + removed), multiset(added' + changes' + removed');
    DiffCounts(a, b, eq, added + changes + removed);
    DiffCounts(b, c, eq, added' + changes' + removed');
    CountsJoin(a, b, c, eq, m, n);
    assert multiset((added + added') + (changes + changes') + (removed + removed')) == m + n;
    DiffCounts(a, c, eq, (added + added') + (changes + changes') + (removed + removed'));
  }

  // ---------- computing the notes ----------

  /** The notes of one kind among the keys `ids`. */
  ghost predicate AllDue<K(!new), V(!new)>(notes: seq<Note<K, V>>, ids: set<K>, old_: map<K, V>, new_: map<K, V>,
                                           eq: (V, V) -> bool) {
    && DistinctIds(notes)
    && (forall i :: 0 <= i < |notes| ==> notes[i].id in ids && Due(notes[i].id, old_, new_, eq) == Some(notes[i]))
  }

  /** Compares the truth with the held data: first what is new or different, then what is gone. */
  method Compare<V(!new)>(data: map<string, V>, truth: map<string, V>, eq: (V, V) -> bool)
    returns (changes: seq<Note<string, V>>, added: seq<Note<string, V>>, removed: seq<Note<string, V>>)
    ensures forall i :: 0 <= i < |added| ==> added[i].Added?
    ensures forall i :: 0 <= i < |changes| ==> changes[i].Changed?
    ensures forall i :: 0 <= i < |removed| ==> removed[i].Removed?
    ensures IsDiff(data, truth, eq, added + changes + removed)
  {
    changes, added, removed := [], [], [];
    var rest := truth.Keys;
    while rest != {}
      invariant rest <= truth.Keys
      invariant AllDue(added, truth.Keys - rest, data, truth, eq) && AllDue(changes, truth.Keys - rest, data, truth, eq)
      invariant forall i :: 0 <= i < |added| ==> added[i].Added?
      invariant forall i :: 0 <= i < |changes| ==> changes[i].Changed?
      invariant forall id :: id in truth.Keys - rest && Due(id, data, truth, eq).Some? ==>
        Due(id, data, truth, eq).value in added || Due(id, data, truth, eq).value in changes
    {
      var id :| id in rest;
      rest := rest - {id};
      if id in data {
        if !eq(data[id], truth[id]) {
          changes := changes + [Changed(id, data[id], truth[id])];
        }
      } else {
        added := added + [Added(id, truth[id])];
      }
    }
    rest := data.Keys - truth.Keys;
    while rest != {}
      invariant rest <= data.Keys - truth.Keys
      invariant AllDue(removed, data.Keys - truth.Keys - rest, data, truth, eq)
      invariant forall i :: 0 <= i < |removed| ==> removed[i].Removed?
      invariant forall id :: id in data.Keys - truth.Keys - rest ==> Removed(id, data[id]) in removed
    {
      var id :| id in rest;
      rest := rest - {id};
      removed := removed + [Removed(id, data[id])];
    }
  }
}
