/** A session's obligations as a list, and which of them have landed in the tree. */
module Obligations {
  import opened Models
  import opened Session

  // ----- the list -----

  predicate UniqueKeys(obs: seq<Obligation>) {
    forall i, j | 0 <= i < j < |obs| :: ObligationKey(obs[i]) != ObligationKey(obs[j])
  }

  /** How an obligation stands: not there, pending, or satisfied. */
  function StateOf(obs: seq<Obligation>, k: Key): Option<ObligationState> {
    var i := IndexOf(obs, k);
    if i == |obs| then None else Some(obs[i].state)
  }

  predicate SameKeys(a: seq<Obligation>, b: seq<Obligation>) {
    |a| == |b| && forall i | 0 <= i < |a| :: ObligationKey(a[i]) == ObligationKey(b[i])
  }

  lemma {:induction false} SameKeysSameIndex(a: seq<Obligation>, b: seq<Obligation>, k: Key)
    requires SameKeys(a, b)
    ensures IndexOf(a, k) == IndexOf(b, k)
  {
    if a != [] {
      assert ObligationKey(a[0]) == ObligationKey(b[0]);
      forall i | 0 <= i < |a[1..]| ensures ObligationKey(a[1..][i]) == ObligationKey(b[1..][i]) {
        assert ObligationKey(a[i + 1]) == ObligationKey(b[i + 1]);
      }
      SameKeysSameIndex(a[1..], b[1..], k);
    }
  }

  lemma {:induction false} IndexAppend(obs: seq<Obligation>, o: Obligation, k: Key)
    ensures IndexOf(obs + [o], k) ==
      if IndexOf(obs, k) < |obs| then IndexOf(obs, k) else if ObligationKey(o) == k then |obs| else |obs| + 1
  {
    if obs != [] {
      assert (obs + [o])[1..] == obs[1..] + [o];
      IndexAppend(obs[1..], o, k);
    }
  }

  lemma {:induction false} NoneBeforeIndex(obs: seq<Obligation>, k: Key, i: nat)
    requires i < IndexOf(obs, k)
    ensures ObligationKey(obs[i]) != k
  {
    if i > 0 {
      NoneBeforeIndex(obs[1..], k, i - 1);
    }
  }

  /** A proposal adds a missing obligation and never changes the state of one that is there. */
  lemma {:induction false} ProposedState(obs: seq<Obligation>, o: Obligation, k: Key)
    ensures StateOf(Proposed(obs, o), k) == if StateOf(obs, k).None? && ObligationKey(o) == k then Some(o.state) else StateOf(obs, k)
  {
    var i := IndexOf(obs, ObligationKey(o));
    if i == |obs| {
      IndexAppend(obs, o, k);
    } else {
      SameKeysSameIndex(obs, Proposed(obs, o), k);
    }
  }

  /** The first obligation of the key. */
  predicate IsFirst(obs: seq<Obligation>, k: Key, i: int) {
    0 <= i < |obs| && ObligationKey(obs[i]) == k && forall j | 0 <= j < i :: ObligationKey(obs[j]) != k
  }

  lemma {:induction false} FirstIsIndex(obs: seq<Obligation>, k: Key, i: int)
    requires IsFirst(obs, k, i)
    ensures IndexOf(obs, k) == i
  {
    if i > 0 {
      assert ObligationKey(obs[0]) != k;
      forall j | 0 <= j < i - 1 ensures ObligationKey(obs[1..][j]) != k { assert ObligationKey(obs[j + 1]) != k; }
      FirstIsIndex(obs[1..], k, i - 1);
    }
  }

  /** What a proposal does, exactly: a key that is not listed is appended; a satisfied obligation stays as
      it is; a pending one takes over the work, requirement, marker and kind that are given. */
  lemma {:induction false} ProposedExactly(obs: seq<Obligation>, o: Obligation)
    ensures (forall x | x in obs :: ObligationKey(x) != ObligationKey(o)) ==> Proposed(obs, o) == obs + [o]
    ensures forall i | IsFirst(obs, ObligationKey(o), i) && obs[i].state.Satisfied? :: Proposed(obs, o) == obs
    ensures forall i | IsFirst(obs, ObligationKey(o), i) && obs[i].state.Pending? ::
      Proposed(obs, o) == obs[i := Obligation(o.path, o.symbol,
        if o.kind != "" then o.kind else obs[i].kind, if o.work != "" then o.work else obs[i].work,
        if o.requirement != "" then o.requirement else obs[i].requirement,
        if o.suggestedMarker != "" then o.suggestedMarker else obs[i].suggestedMarker, Pending)]
  {
    IsListedExactly(obs, ObligationKey(o));
    forall i | IsFirst(obs, ObligationKey(o), i) ensures IndexOf(obs, ObligationKey(o)) == i {
      FirstIsIndex(obs, ObligationKey(o), i);
    }
  }

  lemma {:induction false} ProposedKeepsUnique(obs: seq<Obligation>, o: Obligation)
    requires UniqueKeys(obs)
    ensures UniqueKeys(Proposed(obs, o))
  {
    var i := IndexOf(obs, ObligationKey(o));
    if i == |obs| {
      forall j | 0 <= j < |obs| ensures ObligationKey(obs[j]) != ObligationKey(o) { NoneBeforeIndex(obs, ObligationKey(o), j); }
    } else {
      var r := Proposed(obs, o);
      forall a, b | 0 <= a < b < |r| ensures ObligationKey(r[a]) != ObligationKey(r[b]) {
        assert ObligationKey(r[a]) == ObligationKey(obs[a]) && ObligationKey(r[b]) == ObligationKey(obs[b]);
      }
    }
  }

  function ProposedAll(obs: seq<Obligation>, more: seq<Obligation>): seq<Obligation> {
    if more == [] then obs else Proposed(ProposedAll(obs, more[..|more| - 1]), more[|more| - 1])
  }

  predicate HasKey(obs: seq<Obligation>, k: Key) {
    exists i | 0 <= i < |obs| :: ObligationKey(obs[i]) == k
  }

  lemma {:induction false} HasKeyLast(obs: seq<Obligation>, k: Key)
    requires obs != []
    ensures HasKey(obs, k) <==> HasKey(obs[..|obs| - 1], k) || ObligationKey(obs[|obs| - 1]) == k
  {
    var n := |obs| - 1;
    if i :| 0 <= i < n && ObligationKey(obs[i]) == k {
      assert ObligationKey(obs[..n][i]) == k;
    }
    if i :| 0 <= i < n && ObligationKey(obs[..n][i]) == k {
      assert ObligationKey(obs[i]) == k;
    }
  }

  lemma {:induction false} ProposedAllState(obs: seq<Obligation>, more: seq<Obligation>, k: Key)
    requires forall i | 0 <= i < |more| :: more[i].state.Pending?
    ensures StateOf(ProposedAll(obs, more), k)
      == if StateOf(obs, k).None? && HasKey(more, k) then Some(Pending) else StateOf(obs, k)
  {
    if more != [] {
      var n := |more| - 1;
      ProposedAllState(obs, more[..n], k);
      ProposedState(ProposedAll(obs, more[..n]), more[n], k);
      HasKeyLast(more, k);
    }
  }

  lemma {:induction false} ProposedAllKeepsUnique(obs: seq<Obligation>, more: seq<Obligation>)
    requires UniqueKeys(obs)
    ensures UniqueKeys(ProposedAll(obs, more))
  {
    if more != [] {
      ProposedAllKeepsUnique(obs, more[..|more| - 1]);
      ProposedKeepsUnique(ProposedAll(obs, more[..|more| - 1]), more[|more| - 1]);
    }
  }

  lemma {:induction false} ResolvedState(obs: seq<Obligation>, keys: set<Key>, k: Key)
    ensures StateOf(Resolved(obs, keys), k) == if StateOf(obs, k).Some? && k in keys then Some(Satisfied) else StateOf(obs, k)
  {
    SameKeysSameIndex(obs, Resolved(obs, keys), k);
  }

  lemma {:induction false} ResolvedKeepsUnique(obs: seq<Obligation>, keys: set<Key>)
    requires UniqueKeys(obs)
    ensures UniqueKeys(Resolved(obs, keys))
  {
    var r := Resolved(obs, keys);
    forall a, b | 0 <= a < b < |r| ensures ObligationKey(r[a]) != ObligationKey(r[b]) {
      assert ObligationKey(r[a]) == ObligationKey(obs[a]) && ObligationKey(r[b]) == ObligationKey(obs[b]);
    }
  }

  lemma {:induction false} ResolvedTwice(obs: seq<Obligation>, a: set<Key>, b: set<Key>)
    ensures Resolved(Resolved(obs, a), b) == Resolved(obs, a + b)
  {
    forall i | 0 <= i < |obs| ensures Resolved(Resolved(obs, a), b)[i] == Resolved(obs, a + b)[i] {}
  }

  lemma {:induction false} ResolvedNone(obs: seq<Obligation>)
    ensures Resolved(obs, {}) == obs
  {}

  lemma {:induction false} PendingMembers(obs: seq<Obligation>, o: Obligation)
    ensures o in PendingOf(obs) <==> o in obs && o.state.Pending?
  {
    if obs != [] {
      var n := |obs| - 1;
      assert obs == obs[..n] + [obs[n]];
      PendingMembers(obs[..n], o);
    }
  }

  lemma {:induction false} UniqueIndex(obs: seq<Obligation>, i: nat)
    requires UniqueKeys(obs) && i < |obs|
    ensures IndexOf(obs, ObligationKey(obs[i])) == i
  {
    var j := IndexOf(obs, ObligationKey(obs[i]));
    if j > i {
      NoneBeforeIndex(obs, ObligationKey(obs[i]), i);
    }
  }

  predicate IsPending(obs: seq<Obligation>, k: Key) {
    StateOf(obs, k) == Some(Pending)
  }

  /** Nothing is pending exactly when no key is. */
  lemma {:induction false} NothingPending(obs: seq<Obligation>)
    requires UniqueKeys(obs)
    ensures PendingOf(obs) == [] <==> forall k :: !IsPending(obs, k)
  {
    if PendingOf(obs) != [] {
      var o := PendingOf(obs)[0];
      PendingMembers(obs, o);
      var i :| 0 <= i < |obs| && obs[i] == o;
      UniqueIndex(obs, i);
      assert IsPending(obs, ObligationKey(o));
    }
    if k :| IsPending(obs, k) {
      PendingMembers(obs, obs[IndexOf(obs, k)]);
    }
  }

  // ----- landing -----

  /** A boundary of a file as it is now: whether it is traced, and whether it is as it was at the
      change base. */
  datatype Place = Place(qualified: string, name: string, traced: bool, asBefore: bool)

  /** A file's boundaries, and the ids of all its markers. */
  datatype FileView = FileView(places: seq<Place>, markerIds: set<string>)

  /** The readable files; slugs of names; ids in the text of a marker. */
  datatype TreeView = TreeView(files: map<string, FileView>, slug: string -> string, idsIn: string -> set<string>)

  function FullName(p: Place): string {
    if p.qualified == "" then p.name else p.qualified
  }

  /** What is behind the last dot. */
  function LastPart(s: string): string {
    if s == "" || s[|s| - 1] == '.' then "" else LastPart(s[..|s| - 1]) + [s[|s| - 1]]
  }

  function Named(places: seq<Place>, symbol: string): Option<Place> {
    if places == [] then None
    else if FullName(places[0]) == symbol then Some(places[0])
    else Named(places[1..], symbol)
  }

  function WithSlug(places: seq<Place>, slug: string -> string, want: string): seq<Place> {
    if places == [] then []
    else (if slug(places[0].name) == want then [places[0]] else []) + WithSlug(places[1..], slug, want)
  }

  /** The boundary an obligation is about: by its exact name, or else by slug when only one fits. */
  function Expected(view: FileView, slug: string -> string, symbol: string): Option<Place> {
    var alike := WithSlug(view.places, slug, slug(LastPart(symbol)));
    if Named(view.places, symbol).Some? then Named(view.places, symbol)
    else if |alike| == 1 then Some(alike[0])
    else None
  }

  /** The obligation is met by the file as it is: its boundary is traced or unchanged; or there is no
      such boundary, and the marker suggested for it is nowhere in the file. */
  predicate Lands(t: TreeView, o: Obligation) {
    && o.path != "" && o.path in t.files && o.symbol != ""
    && var view := t.files[o.path];
       match Expected(view, t.slug, o.symbol)
       case Some(p) => p.traced || p.asBefore
       case None => t.idsIn(o.suggestedMarker) !! view.markerIds
  }

  /** The keys of the pending obligations that have landed. */
  function LandedKeys(t: TreeView, obs: seq<Obligation>): set<Key> {
    set o | o in PendingOf(obs) && Lands(t, o) :: ObligationKey(o)
  }

  /** Some pending obligation of the key has landed. */
  predicate HasLanded(t: TreeView, obs: seq<Obligation>, k: Key) {
    exists o | o in obs :: o.state.Pending? && ObligationKey(o) == k && Lands(t, o)
  }

  lemma {:induction false} LandedKeysExactly(t: TreeView, obs: seq<Obligation>, k: Key)
    ensures k in LandedKeys(t, obs) <==> HasLanded(t, obs, k)
  {
    forall o: Obligation ensures o in PendingOf(obs) <==> o in obs && o.state.Pending? { PendingMembers(obs, o); }
    if k in LandedKeys(t, obs) {
      var o :| o in PendingOf(obs) && Lands(t, o) && ObligationKey(o) == k;
      assert o in obs;
    }
  }

  lemma {:induction false} NamedFirst(places: seq<Place>, symbol: string, i: nat)
    requires i < |places| && FullName(places[i]) == symbol
    requires forall j | 0 <= j < i :: FullName(places[j]) != symbol
    ensures Named(places, symbol) == Some(places[i])
  {
    if i > 0 {
      assert FullName(places[0]) != symbol;
      forall j | 0 <= j < i - 1 ensures FullName(places[1..][j]) != symbol { assert FullName(places[j + 1]) != symbol; }
      NamedFirst(places[1..], symbol, i - 1);
    }
  }

  lemma {:induction false} NamedIsThere(places: seq<Place>, symbol: string)
    ensures match Named(places, symbol)
            case Some(p) => p in places && FullName(p) == symbol
            case None => forall p | p in places :: FullName(p) != symbol
  {
    if places != [] {
      NamedIsThere(places[1..], symbol);
      assert places == [places[0]] + places[1..];
    }
  }

  /** Only the boundary of that name counts: markers on others, and whether the suggested id is in
      the file, make no difference. */
  lemma {:induction false} OnlyItsBoundaryCounts(t: TreeView, o: Obligation, i: nat)
    requires o.path != "" && o.path in t.files && o.symbol != ""
    requires var places := t.files[o.path].places;
      i < |places| && FullName(places[i]) == o.symbol && forall j | 0 <= j < i :: FullName(places[j]) != o.symbol
    ensures Lands(t, o) <==> t.files[o.path].places[i].traced || t.files[o.path].places[i].asBefore
  {
    NamedFirst(t.files[o.path].places, o.symbol, i);
  }

  lemma {:induction false} WithSlugMembers(places: seq<Place>, slug: string -> string, want: string, p: Place)
    ensures p in WithSlug(places, slug, want) <==> p in places && slug(p.name) == want
  {
    if places != [] {
      WithSlugMembers(places[1..], slug, want, p);
      assert places == [places[0]] + places[1..];
    }
  }

  lemma {:induction false} ExpectedIsThere(view: FileView, slug: string -> string, symbol: string)
    ensures Expected(view, slug, symbol).Some? ==> Expected(view, slug, symbol).value in view.places
    ensures Expected(view, slug, symbol).None? <==>
      && (forall p | p in view.places :: FullName(p) != symbol)
      && |WithSlug(view.places, slug, slug(LastPart(symbol)))| != 1
  {
    NamedIsThere(view.places, symbol);
    var want := slug(LastPart(symbol));
    var alike := WithSlug(view.places, slug, want);
    if |alike| == 1 {
      WithSlugMembers(view.places, slug, want, alike[0]);
    }
  }

  /** The boundary bears the name, or shares its slug. */
  predicate Answers(slug: string -> string, symbol: string, p: Place) {
    FullName(p) == symbol || slug(p.name) == slug(LastPart(symbol))
  }

  lemma {:induction false} ExpectedAnswers(view: FileView, slug: string -> string, symbol: string)
    ensures Expected(view, slug, symbol).Some? ==>
      Expected(view, slug, symbol).value in view.places && Answers(slug, symbol, Expected(view, slug, symbol).value)
  {
    NamedIsThere(view.places, symbol);
    var want := slug(LastPart(symbol));
    var alike := WithSlug(view.places, slug, want);
    if |alike| == 1 {
      WithSlugMembers(view.places, slug, want, alike[0]);
    }
  }

  /** When no boundary that bears the name or shares its slug is traced or unchanged, an obligation lands
      exactly when none bears the name, none or several share the slug, and no marker of the file has
      the suggested id. What the other boundaries of the file are makes no difference. */
  lemma {:induction false} LandsUntracedExactly(t: TreeView, o: Obligation)
    requires o.path != "" && o.path in t.files && o.symbol != ""
    requires forall p | p in t.files[o.path].places && Answers(t.slug, o.symbol, p) :: !p.traced && !p.asBefore
    ensures var view := t.files[o.path];
      Lands(t, o) <==>
        && (forall p | p in view.places :: FullName(p) != o.symbol)
        && |WithSlug(view.places, t.slug, t.slug(LastPart(o.symbol)))| != 1
        && t.idsIn(o.suggestedMarker) !! view.markerIds
  {
    ExpectedIsThere(t.files[o.path], t.slug, o.symbol);
    ExpectedAnswers(t.files[o.path], t.slug, o.symbol);
  }

  lemma {:induction false} SeveralWithSlug(places: seq<Place>, slug: string -> string, want: string, i: nat, j: nat)
    requires i < j < |places| && slug(places[i].name) == want && slug(places[j].name) == want
    ensures |WithSlug(places, slug, want)| > 1
  {
    if i > 0 {
      SeveralWithSlug(places[1..], slug, want, i - 1, j - 1);
    } else {
      WithSlugMembers(places[1..], slug, want, places[j]);
      assert places[1..][j - 1] == places[j];
      assert WithSlug(places[1..], slug, want) != [];
    }
  }

  /** So in any file where two boundaries share the slug of a name that none bears, the obligation is met
      whatever is traced, unless some marker has the suggested id. */
  lemma {:induction false} SharedSlugLands(t: TreeView, o: Obligation, i: nat, j: nat)
    requires o.path != "" && o.path in t.files && o.symbol != ""
    requires var places := t.files[o.path].places;
      && i < j < |places| && (forall p | p in places :: FullName(p) != o.symbol)
      && t.slug(places[i].name) == t.slug(LastPart(o.symbol)) && t.slug(places[j].name) == t.slug(LastPart(o.symbol))
    ensures Lands(t, o) <==> t.idsIn(o.suggestedMarker) !! t.files[o.path].markerIds
  {
    var view := t.files[o.path];
    SeveralWithSlug(view.places, t.slug, t.slug(LastPart(o.symbol)), i, j);
    ExpectedIsThere(view, t.slug, o.symbol);
  }

  /** The only boundary with the slug. */
  ghost predicate OnlyAlike(places: seq<Place>, slug: string -> string, want: string, i: int) {
    0 <= i < |places| && slug(places[i].name) == want && forall j | 0 <= j < |places| && j != i :: slug(places[j].name) != want
  }

  /** The boundary has the qualified name, or, without one, the plain name. */
  predicate Bears(p: Place, symbol: string) {
    p.qualified == symbol || (p.qualified == "" && p.name == symbol)
  }

  /** The first boundary that bears the name. */
  ghost predicate FirstNamed(places: seq<Place>, symbol: string, i: int) {
    0 <= i < |places| && Bears(places[i], symbol) && forall j | 0 <= j < i :: !Bears(places[j], symbol)
  }

  lemma {:induction false} OneWithSlug(places: seq<Place>, slug: string -> string, want: string)
    ensures |WithSlug(places, slug, want)| == 1 <==> exists i :: OnlyAlike(places, slug, want, i)
    ensures forall i | OnlyAlike(places, slug, want, i) :: WithSlug(places, slug, want) == [places[i]]
  {
    if places != [] {
      OneWithSlug(places[1..], slug, want);
      NoneWithSlug(places[1..], slug, want);
      var rest := places[1..];
      if slug(places[0].name) == want {
        assert OnlyAlike(places, slug, want, 0) <==> WithSlug(rest, slug, want) == [] by {
          assert (forall j | 0 <= j < |rest| :: slug(rest[j].name) != want) <==> (forall j | 0 < j < |places| :: slug(places[j].name) != want);
        }
        forall i | OnlyAlike(places, slug, want, i) ensures i == 0 {}
      } else {
        forall i ensures OnlyAlike(places, slug, want, i + 1) <==> OnlyAlike(rest, slug, want, i) {
          if OnlyAlike(rest, slug, want, i) {
            forall j | 0 < j < |places| && j != i + 1 ensures slug(places[j].name) != want { assert places[j] == rest[j - 1]; }
          }
        }
        if i :| OnlyAlike(places, slug, want, i) {
          assert OnlyAlike(rest, slug, want, i - 1);
        }
        if i :| OnlyAlike(rest, slug, want, i) {
          assert OnlyAlike(places, slug, want, i + 1);
        }
        forall i | OnlyAlike(places, slug, want, i) ensures WithSlug(places, slug, want) == [places[i]] {
          assert OnlyAlike(rest, slug, want, i - 1);
        }
      }
    }
  }

  lemma {:induction false} NoneWithSlug(places: seq<Place>, slug: string -> string, want: string)
    ensures WithSlug(places, slug, want) == [] <==> forall i | 0 <= i < |places| :: slug(places[i].name) != want
  {
    if places != [] {
      NoneWithSlug(places[1..], slug, want);
      var rest := places[1..];
      if forall i | 0 <= i < |rest| :: slug(rest[i].name) != want {
        forall i | 0 < i < |places| ensures slug(places[i].name) != want { assert places[i] == rest[i - 1]; }
      }
    }
  }

  /** When an obligation has landed, exactly: its file is readable, and the first boundary that bears the
      name, or without one the only boundary with its slug, is traced or unchanged; or there is no such
      boundary, and no marker of the file has an id of the suggested one. */
  lemma {:induction false} LandsExactly(t: TreeView, o: Obligation)
    ensures Lands(t, o) ==> o.path != "" && o.symbol != "" && o.path in t.files
    ensures o.path != "" && o.symbol != "" && o.path in t.files ==>
      var places := t.files[o.path].places;
      var want := t.slug(LastPart(o.symbol));
      && (forall i | FirstNamed(places, o.symbol, i) :: Lands(t, o) <==> places[i].traced || places[i].asBefore)
      && ((forall p | p in places :: !Bears(p, o.symbol)) ==>
           && (forall i | OnlyAlike(places, t.slug, want, i) :: Lands(t, o) <==> places[i].traced || places[i].asBefore)
           && ((forall i :: !OnlyAlike(places, t.slug, want, i)) ==>
                (Lands(t, o) <==> forall id | id in t.files[o.path].markerIds :: id !in t.idsIn(o.suggestedMarker))))
  {
    if o.path != "" && o.symbol != "" && o.path in t.files {
      var places := t.files[o.path].places;
      OneWithSlug(places, t.slug, t.slug(LastPart(o.symbol)));
      NamedIsThere(places, o.symbol);
      assert forall p :: Bears(p, o.symbol) <==> FullName(p) == o.symbol;
      forall i | FirstNamed(places, o.symbol, i) ensures Named(places, o.symbol) == Some(places[i]) {
        NamedFirst(places, o.symbol, i);
      }
    }
  }

  /** The last part of a dotted name: what is behind its last dot, or all of it. */
  lemma {:induction false} LastPartExactly(s: string)
    ensures '.' !in LastPart(s)
    ensures s == LastPart(s) || exists head :: s == head + "." + LastPart(s)
  {
    if s != "" && s[|s| - 1] != '.' {
      var init, c := s[..|s| - 1], [s[|s| - 1]];
      LastPartExactly(init);
      assert s == init + c;
      if head :| init == head + "." + LastPart(init) {
        assert s == head + "." + LastPart(s);
      }
    } else if s != "" {
      assert s == s[..|s| - 1] + "." + "";
    }
  }
}
