/** Matching a spoke's config keys against a hub's: three hash indices that
    answer as a plain scan of the hub would. The two normal forms are
    parameters; nothing here depends on what they do to a key. */
module KeyMatching {
  import opened Wrappers

  datatype ConfigKey = ConfigKey(file: string, key: string, value: string, valueKnown: bool)

  datatype KeyMatch = KeyMatch(spokeKey: string, spokeFile: string, hubKey: string, hubFile: string, confidence: real)

  datatype Naming = Naming(normalize: string -> string, canonicalize: string -> string)

  /** What follows the last dot, or all of it. */
  function LastToken(norm: string): (t: string)
    ensures |t| <= |norm| && t == norm[|norm| - |t|..] && '.' !in t
    ensures |t| < |norm| ==> norm[|norm| - |t| - 1] == '.'
  {
    if norm == [] then ""
    else
      var rest := LastToken(norm[1..]);
      if norm[0] != '.' && rest == norm[1..] then norm else rest
  }

  function FullKey(nm: Naming): ConfigKey -> string {
    (h: ConfigKey) => nm.normalize(h.key)
  }

  function CanonKey(nm: Naming): ConfigKey -> string {
    (h: ConfigKey) => nm.canonicalize(h.key)
  }

  function LeafKey(nm: Naming): ConfigKey -> string {
    (h: ConfigKey) => LastToken(nm.normalize(h.key))
  }

  // ---- The plain scan -------------------------------------------------------

  /** The entries filed under `n`, in hub order. */
  function AllWith(f: ConfigKey -> string, hub: seq<ConfigKey>, n: string): seq<ConfigKey> {
    if hub == [] then []
    else AllWith(f, hub[..|hub| - 1], n) + if f(hub[|hub| - 1]) == n then [hub[|hub| - 1]] else []
  }

  /** The sole key the candidates name, under its first entry. */
  function Unambiguous(cands: seq<ConfigKey>): Option<ConfigKey> {
    if cands == [] then None
    else if forall i :: 0 <= i < |cands| ==> cands[i].key == cands[0].key then Some(cands[0])
    else None
  }

  function ValuesAgree(h: ConfigKey, s: ConfigKey): bool {
    h.valueKnown && s.valueKnown && h.value == s.value
  }

  datatype Verdict = Exact(h: ConfigKey) | Canonical(h: ConfigKey) | Leaf(h: ConfigKey) | Orphan

  /** The strongest tier that answers for `s`, and the entry it names. */
  function Judge(nm: Naming, s: ConfigKey, hub: seq<ConfigKey>): Verdict {
    var full := AllWith(FullKey(nm), hub, FullKey(nm)(s));
    var canon := Unambiguous(AllWith(CanonKey(nm), hub, CanonKey(nm)(s)));
    var leaf := AllWith(LeafKey(nm), hub, LeafKey(nm)(s));
    if full != [] then Exact(full[0])
    else if canon.Some? then Canonical(canon.value)
    else if |leaf| == 1 then Leaf(leaf[0])
    else Orphan
  }

  function MatchOf(s: ConfigKey, v: Verdict): KeyMatch
    requires !v.Orphan?
  {
    KeyMatch(s.key, s.file, v.h.key, v.h.file,
             match v
             case Exact(h) => if ValuesAgree(h, s) then 0.98 else 0.9
             case Canonical(h) => if ValuesAgree(h, s) then 0.95 else 0.85
             case Leaf(_) => 0.55)
  }

  function Matches(nm: Naming, spoke: seq<ConfigKey>, hub: seq<ConfigKey>): seq<KeyMatch> {
    if spoke == [] then []
    else
      var s := spoke[|spoke| - 1];
      Matches(nm, spoke[..|spoke| - 1], hub) + if Judge(nm, s, hub).Orphan? then [] else [MatchOf(s, Judge(nm, s, hub))]
  }

  function Orphans(nm: Naming, spoke: seq<ConfigKey>, hub: seq<ConfigKey>): seq<ConfigKey> {
    if spoke == [] then []
    else
      var s := spoke[|spoke| - 1];
      Orphans(nm, spoke[..|spoke| - 1], hub) + if Judge(nm, s, hub).Orphan? then [s] else []
  }

  // ---- The indices ----------------------------------------------------------

  function Bucket(index: map<string, seq<ConfigKey>>, n: string): seq<ConfigKey> {
    if n in index then index[n] else []
  }

  ghost predicate Indexes(index: map<string, seq<ConfigKey>>, f: ConfigKey -> string, hub: seq<ConfigKey>) {
    forall n :: Bucket(index, n) == AllWith(f, hub, n)
  }

  ghost predicate IndexesFirst(index: map<string, ConfigKey>, f: ConfigKey -> string, hub: seq<ConfigKey>) {
    && (forall n :: n in index <==> AllWith(f, hub, n) != [])
    && (forall n :: n in index ==> index[n] == AllWith(f, hub, n)[0])
  }

  lemma AllWithSnoc(f: ConfigKey -> string, hub: seq<ConfigKey>, h: ConfigKey, n: string)
    ensures AllWith(f, hub + [h], n) == AllWith(f, hub, n) + if f(h) == n then [h] else []
  {
    assert (hub + [h])[..|hub + [h]| - 1] == hub;
  }

  lemma IndexPush(index: map<string, seq<ConfigKey>>, f: ConfigKey -> string, hub: seq<ConfigKey>, h: ConfigKey)
    requires Indexes(index, f, hub)
    ensures Indexes(index[f(h) := Bucket(index, f(h)) + [h]], f, hub + [h])
  {
    hide AllWith;
    var index' := index[f(h) := Bucket(index, f(h)) + [h]];
    forall n ensures Bucket(index', n) == AllWith(f, hub + [h], n) {
      AllWithSnoc(f, hub, h, n);
    }
  }

  lemma IndexFirst(index: map<string, ConfigKey>, f: ConfigKey -> string, hub: seq<ConfigKey>, h: ConfigKey)
    requires IndexesFirst(index, f, hub)
    ensures IndexesFirst(if f(h) in index then index else index[f(h) := h], f, hub + [h])
  {
    hide AllWith;
    forall n ensures AllWith(f, hub + [h], n) == AllWith(f, hub, n) + if f(h) == n then [h] else [] {
      AllWithSnoc(f, hub, h, n);
    }
  }

  lemma NothingIndexed(f: ConfigKey -> string)
    ensures Indexes(map[], f, []) && IndexesFirst(map[], f, [])
  {
  }

  lemma KeysOfEntry(nm: Naming, h: ConfigKey)
    ensures FullKey(nm)(h) == nm.normalize(h.key)
    ensures CanonKey(nm)(h) == nm.canonicalize(h.key)
    ensures LeafKey(nm)(h) == LastToken(nm.normalize(h.key))
  {
  }

  method IndexHub(nm: Naming, hub: seq<ConfigKey>)
    returns (byFull: map<string, ConfigKey>, byCanon: map<string, seq<ConfigKey>>, byLeaf: map<string, seq<ConfigKey>>)
    ensures IndexesFirst(byFull, FullKey(nm), hub)
    ensures Indexes(byCanon, CanonKey(nm), hub) && Indexes(byLeaf, LeafKey(nm), hub)
  {
    hide IndexesFirst, Indexes, AllWith, FullKey, CanonKey, LeafKey, LastToken, Bucket;
    byFull, byCanon, byLeaf := map[], map[], map[];
    NothingIndexed(FullKey(nm));
    NothingIndexed(CanonKey(nm));
    NothingIndexed(LeafKey(nm));
    for i := 0 to |hub|
      invariant IndexesFirst(byFull, FullKey(nm), hub[..i])
      invariant Indexes(byCanon, CanonKey(nm), hub[..i]) && Indexes(byLeaf, LeafKey(nm), hub[..i])
    {
      var h := hub[i];
      KeysOfEntry(nm, h);
      IndexFirst(byFull, FullKey(nm), hub[..i], h);
      IndexPush(byCanon, CanonKey(nm), hub[..i], h);
      IndexPush(byLeaf, LeafKey(nm), hub[..i], h);
      assert hub[..i + 1] == hub[..i] + [h];
      var n := nm.normalize(h.key);
      byFull := if n in byFull then byFull else byFull[n := h];
      byCanon := byCanon[nm.canonicalize(h.key) := Bucket(byCanon, nm.canonicalize(h.key)) + [h]];
      byLeaf := byLeaf[LastToken(n) := Bucket(byLeaf, LastToken(n)) + [h]];
    }
    assert hub[..|hub|] == hub;
  }

  /** The tiers, each answered from its index. */
  function Lookup(
    nm: Naming, s: ConfigKey,
    byFull: map<string, ConfigKey>, byCanon: map<string, seq<ConfigKey>>, byLeaf: map<string, seq<ConfigKey>>): Verdict
  {
    var n := nm.normalize(s.key);
    var canon := Unambiguous(Bucket(byCanon, nm.canonicalize(s.key)));
    var leaf := Bucket(byLeaf, LastToken(n));
    if n in byFull then Exact(byFull[n])
    else if canon.Some? then Canonical(canon.value)
    else if |leaf| == 1 then Leaf(leaf[0])
    else Orphan
  }

  /** The indexed matcher is the plain scan. */
  method MatchAgainstHub(nm: Naming, spoke: seq<ConfigKey>, hub: seq<ConfigKey>)
    returns (matches: seq<KeyMatch>, orphans: seq<ConfigKey>)
    ensures matches == Matches(nm, spoke, hub)
    ensures orphans == Orphans(nm, spoke, hub)
  {
    hide Judge, Lookup, MatchOf, Indexes, IndexesFirst;
    var byFull, byCanon, byLeaf := IndexHub(nm, hub);
    matches, orphans := [], [];
    for i := 0 to |spoke|
      invariant matches == Matches(nm, spoke[..i], hub)
      invariant orphans == Orphans(nm, spoke[..i], hub)
    {
      var s := spoke[i];
      MatchesSnoc(nm, spoke[..i], s, hub);
      assert spoke[..i + 1] == spoke[..i] + [s];
      LookupIsJudge(nm, s, hub, byFull, byCanon, byLeaf);
      var v := Lookup(nm, s, byFull, byCanon, byLeaf);
      if v.Orphan? {
        orphans := orphans + [s];
      } else {
        matches := matches + [MatchOf(s, v)];
      }
    }
    assert spoke[..|spoke|] == spoke;
  }

  lemma MatchesSnoc(nm: Naming, spoke: seq<ConfigKey>, s: ConfigKey, hub: seq<ConfigKey>)
    ensures Matches(nm, spoke + [s], hub) ==
            Matches(nm, spoke, hub) + if Judge(nm, s, hub).Orphan? then [] else [MatchOf(s, Judge(nm, s, hub))]
    ensures Orphans(nm, spoke + [s], hub) ==
            Orphans(nm, spoke, hub) + if Judge(nm, s, hub).Orphan? then [s] else []
  {
    assert (spoke + [s])[..|spoke + [s]| - 1] == spoke;
  }

  lemma LookupIsJudge(
    nm: Naming, s: ConfigKey, hub: seq<ConfigKey>,
    byFull: map<string, ConfigKey>, byCanon: map<string, seq<ConfigKey>>, byLeaf: map<string, seq<ConfigKey>>)
    requires IndexesFirst(byFull, FullKey(nm), hub)
    requires Indexes(byCanon, CanonKey(nm), hub) && Indexes(byLeaf, LeafKey(nm), hub)
    ensures Lookup(nm, s, byFull, byCanon, byLeaf) == Judge(nm, s, hub)
  {
    hide AllWith, Unambiguous, FullKey, CanonKey, LeafKey, LastToken;
    KeysOfEntry(nm, s);
    assert Bucket(byCanon, CanonKey(nm)(s)) == AllWith(CanonKey(nm), hub, CanonKey(nm)(s));
    assert Bucket(byLeaf, LeafKey(nm)(s)) == AllWith(LeafKey(nm), hub, LeafKey(nm)(s));
  }

  // ---- What the scan promises -----------------------------------------------

  /** Matches and orphans split the spoke's keys between them, each in spoke
      order: the key at `i` is the next match or the next orphan. */
  lemma {:induction false} PartitionInOrder(nm: Naming, spoke: seq<ConfigKey>, hub: seq<ConfigKey>, i: nat)
    requires i < |spoke|
    ensures |Matches(nm, spoke, hub)| + |Orphans(nm, spoke, hub)| == |spoke|
    ensures var before := |Matches(nm, spoke[..i], hub)|;
            && before <= i
            && if Judge(nm, spoke[i], hub).Orphan?
               then i - before < |Orphans(nm, spoke, hub)| && Orphans(nm, spoke, hub)[i - before] == spoke[i]
               else
                 && before < |Matches(nm, spoke, hub)|
                 && Matches(nm, spoke, hub)[before] == MatchOf(spoke[i], Judge(nm, spoke[i], hub))
  {
    hide Judge, MatchOf;
    var front := spoke[..|spoke| - 1];
    CountsAddUp(nm, front, hub);
    if i < |front| {
      PartitionInOrder(nm, front, hub, i);
      assert front[..i] == spoke[..i];
    }
  }

  lemma {:induction false} CountsAddUp(nm: Naming, spoke: seq<ConfigKey>, hub: seq<ConfigKey>)
    ensures |Matches(nm, spoke, hub)| + |Orphans(nm, spoke, hub)| == |spoke|
  {
    hide Judge, MatchOf;
    if spoke != [] {
      CountsAddUp(nm, spoke[..|spoke| - 1], hub);
    }
  }

  lemma {:induction false} AllWithMember(f: ConfigKey -> string, hub: seq<ConfigKey>, n: string, h: ConfigKey)
    ensures multiset(AllWith(f, hub, n))[h] == if f(h) == n then multiset(hub)[h] else 0
  {
    if hub != [] {
      var front, last := hub[..|hub| - 1], hub[|hub| - 1];
      AllWithMember(f, front, n, h);
      assert hub == front + [last];
    }
  }

  /** A key matches exactly when some hub entry has its normal form; a
      canonical match names the only hub key with its canonical form, and a
      leaf match the only hub entry with its last token. */
  lemma VerdictIsDeserved(nm: Naming, s: ConfigKey, hub: seq<ConfigKey>)
    ensures Judge(nm, s, hub).Exact? <==> exists h :: h in hub && nm.normalize(h.key) == nm.normalize(s.key)
    ensures Judge(nm, s, hub).Canonical? ==>
              && Judge(nm, s, hub).h in hub
              && forall h :: h in hub && nm.canonicalize(h.key) == nm.canonicalize(s.key) ==>
                  h.key == Judge(nm, s, hub).h.key
    ensures Judge(nm, s, hub).Leaf? ==>
              && Judge(nm, s, hub).h in hub
              && forall h :: h in hub && LastToken(nm.normalize(h.key)) == LastToken(nm.normalize(s.key)) ==>
                  h == Judge(nm, s, hub).h
  {
    hide AllWith, FullKey, CanonKey, LeafKey, LastToken, Unambiguous;
    var full, canon, leaf := AllWith(FullKey(nm), hub, FullKey(nm)(s)),
        AllWith(CanonKey(nm), hub, CanonKey(nm)(s)), AllWith(LeafKey(nm), hub, LeafKey(nm)(s));
    assert Judge(nm, s, hub).Exact? <==> full != [];
    assert Judge(nm, s, hub).Canonical? ==> Unambiguous(canon) == Some(Judge(nm, s, hub).h);
    assert Judge(nm, s, hub).Leaf? ==> leaf == [Judge(nm, s, hub).h];
    hide Judge;
    KeysOfEntry(nm, s);
    CandidatesAre(FullKey(nm), hub, FullKey(nm)(s));
    CandidatesAre(CanonKey(nm), hub, CanonKey(nm)(s));
    CandidatesAre(LeafKey(nm), hub, LeafKey(nm)(s));
    UnambiguousMeans(canon);
    forall h: ConfigKey
      ensures nm.normalize(h.key) == nm.normalize(s.key) && h in hub ==> h in full
      ensures nm.canonicalize(h.key) == nm.canonicalize(s.key) && h in hub ==> h in canon
      ensures LastToken(nm.normalize(h.key)) == LastToken(nm.normalize(s.key)) && h in hub ==> h in leaf
    {
      KeysOfEntry(nm, h);
    }
    if full != [] {
      KeysOfEntry(nm, full[0]);
      assert full[0] in hub;
    }
  }

  // ---- The tiers, read off the hub -------------------------------------------

  /** No hub entry has the form. */
  ghost predicate NoneHas(f: ConfigKey -> string, hub: seq<ConfigKey>, n: string) {
    forall h :: h in hub ==> f(h) != n
  }

  /** The j-th entry is the first that has it. */
  ghost predicate FirstHas(f: ConfigKey -> string, hub: seq<ConfigKey>, n: string, j: int) {
    0 <= j < |hub| && f(hub[j]) == n && NoneHas(f, hub[..j], n)
  }

  /** Whatever entry has it has this key. */
  ghost predicate OneKeyHas(f: ConfigKey -> string, hub: seq<ConfigKey>, n: string, key: string) {
    forall h :: h in hub && f(h) == n ==> h.key == key
  }

  /** The j-th entry is the only one that has it. */
  ghost predicate OnlyHas(f: ConfigKey -> string, hub: seq<ConfigKey>, n: string, j: int) {
    0 <= j < |hub| && f(hub[j]) == n && NoneHas(f, hub[..j], n) && NoneHas(f, hub[j + 1..], n)
  }

  /** Exact: the first entry with the key's normal form. */
  ghost predicate ExactAt(nm: Naming, s: ConfigKey, hub: seq<ConfigKey>, j: int) {
    FirstHas(FullKey(nm), hub, nm.normalize(s.key), j)
  }

  /** Canonical: no entry has the normal form, and those with the canonical one
      all have the key of the first of them. */
  ghost predicate CanonicalAt(nm: Naming, s: ConfigKey, hub: seq<ConfigKey>, j: int) {
    && NoneHas(FullKey(nm), hub, nm.normalize(s.key))
    && FirstHas(CanonKey(nm), hub, nm.canonicalize(s.key), j)
    && OneKeyHas(CanonKey(nm), hub, nm.canonicalize(s.key), hub[j].key)
  }

  /** Leaf: neither form answers, and a single entry has the last token. */
  ghost predicate LeafAt(nm: Naming, s: ConfigKey, hub: seq<ConfigKey>, j: int) {
    && NoneHas(FullKey(nm), hub, nm.normalize(s.key))
    && (forall k :: !CanonicalAt(nm, s, hub, k))
    && OnlyHas(LeafKey(nm), hub, LastToken(nm.normalize(s.key)), j)
  }

  lemma NoneOfEither(f: ConfigKey -> string, a: seq<ConfigKey>, b: seq<ConfigKey>, n: string)
    ensures NoneHas(f, a + b, n) <==> NoneHas(f, a, n) && NoneHas(f, b, n)
    ensures AllWith(f, a + b, n) == AllWith(f, a, n) + AllWith(f, b, n)
  {
    assert forall h :: h in a + b <==> h in a || h in b;
    AllWithAppend(f, a, b, n);
  }

  lemma NoCandidates(f: ConfigKey -> string, hub: seq<ConfigKey>, n: string)
    ensures AllWith(f, hub, n) == [] <==> NoneHas(f, hub, n)
  {
    CandidatesAre(f, hub, n);
    hide AllWith;
    if AllWith(f, hub, n) != [] {
      assert AllWith(f, hub, n)[0] in hub;
    }
  }

  lemma OneCandidate(f: ConfigKey -> string, h: ConfigKey, n: string)
    ensures AllWith(f, [h], n) == if f(h) == n then [h] else []
  {
    assert [h][..0] == [] && AllWith(f, [], n) == [];
  }

  lemma AroundEntry(f: ConfigKey -> string, hub: seq<ConfigKey>, n: string, j: int)
    requires 0 <= j < |hub|
    ensures AllWith(f, hub, n)
            == AllWith(f, hub[..j], n) + (if f(hub[j]) == n then [hub[j]] else []) + AllWith(f, hub[j + 1..], n)
  {
    hide AllWith;
    assert hub == hub[..j] + ([hub[j]] + hub[j + 1..]);
    NoneOfEither(f, hub[..j], [hub[j]] + hub[j + 1..], n);
    NoneOfEither(f, [hub[j]], hub[j + 1..], n);
    OneCandidate(f, hub[j], n);
  }

  lemma FirstIsHead(f: ConfigKey -> string, hub: seq<ConfigKey>, n: string, j: int)
    requires FirstHas(f, hub, n, j)
    ensures AllWith(f, hub, n) != [] && AllWith(f, hub, n)[0] == hub[j]
    ensures OnlyHas(f, hub, n, j) <==> |AllWith(f, hub, n)| == 1
  {
    hide AllWith, NoneHas;
    AroundEntry(f, hub, n, j);
    NoCandidates(f, hub[..j], n);
    NoCandidates(f, hub[j + 1..], n);
  }

  lemma {:induction false} SomeFirst(f: ConfigKey -> string, hub: seq<ConfigKey>, n: string) returns (j: int)
    requires !NoneHas(f, hub, n)
    ensures FirstHas(f, hub, n, j)
  {
    var front, last := hub[..|hub| - 1], hub[|hub| - 1];
    assert hub == front + [last];
    if NoneHas(f, front, n) {
      j := |front|;
    } else {
      j := SomeFirst(f, front, n);
      assert front[..j] == hub[..j];
    }
  }

  lemma JudgeIs(nm: Naming, s: ConfigKey, hub: seq<ConfigKey>)
    ensures var full := AllWith(FullKey(nm), hub, nm.normalize(s.key));
            var canon := Unambiguous(AllWith(CanonKey(nm), hub, nm.canonicalize(s.key)));
            var leaf := AllWith(LeafKey(nm), hub, LastToken(nm.normalize(s.key)));
            Judge(nm, s, hub) ==
            if full != [] then Exact(full[0])
            else if canon.Some? then Canonical(canon.value)
            else if |leaf| == 1 then Leaf(leaf[0])
            else Orphan
  {
    KeysOfEntry(nm, s);
    hide FullKey, CanonKey, LeafKey, AllWith, Unambiguous, LastToken;
  }

  lemma ExactGives(nm: Naming, s: ConfigKey, hub: seq<ConfigKey>, j: int)
    requires ExactAt(nm, s, hub, j)
    ensures 0 <= j < |hub| && Judge(nm, s, hub) == Exact(hub[j])
  {
    hide Judge, AllWith, NoneHas, FullKey;
    JudgeIs(nm, s, hub);
    FirstIsHead(FullKey(nm), hub, nm.normalize(s.key), j);
  }

  lemma OneKeyIff(f: ConfigKey -> string, hub: seq<ConfigKey>, n: string, j: int)
    requires FirstHas(f, hub, n, j)
    ensures Unambiguous(AllWith(f, hub, n)).Some? <==> OneKeyHas(f, hub, n, hub[j].key)
    ensures Unambiguous(AllWith(f, hub, n)).Some? ==> Unambiguous(AllWith(f, hub, n)) == Some(hub[j])
  {
    hide AllWith, NoneHas;
    var cands := AllWith(f, hub, n);
    FirstIsHead(f, hub, n, j);
    CandidatesAre(f, hub, n);
    UnambiguousIsFirst(cands);
    UnambiguousMeans(cands);
    assert forall h :: h in cands <==> h in hub && f(h) == n;
  }

  lemma CanonicalGives(nm: Naming, s: ConfigKey, hub: seq<ConfigKey>, j: int)
    requires CanonicalAt(nm, s, hub, j)
    ensures 0 <= j < |hub| && Judge(nm, s, hub) == Canonical(hub[j])
  {
    hide Judge, AllWith, NoneHas, FullKey, CanonKey, OneKeyHas, Unambiguous;
    JudgeIs(nm, s, hub);
    NoCandidates(FullKey(nm), hub, nm.normalize(s.key));
    OneKeyIff(CanonKey(nm), hub, nm.canonicalize(s.key), j);
  }

  lemma CanonicalNeeds(nm: Naming, s: ConfigKey, hub: seq<ConfigKey>)
    requires NoneHas(FullKey(nm), hub, nm.normalize(s.key))
    requires Unambiguous(AllWith(CanonKey(nm), hub, nm.canonicalize(s.key))).Some?
    ensures exists j :: CanonicalAt(nm, s, hub, j)
  {
    hide AllWith, NoneHas, FullKey, CanonKey, OneKeyHas, Unambiguous, FirstHas;
    var f, n := CanonKey(nm), nm.canonicalize(s.key);
    UnambiguousIsFirst(AllWith(f, hub, n));
    NoCandidates(f, hub, n);
    var j := SomeFirst(f, hub, n);
    OneKeyIff(f, hub, n, j);
    assert 0 <= j < |hub| by {
      FirstIsInside(f, hub, n, j);
    }
    assert CanonicalAt(nm, s, hub, j);
  }

  lemma FirstIsInside(f: ConfigKey -> string, hub: seq<ConfigKey>, n: string, j: int)
    requires FirstHas(f, hub, n, j)
    ensures 0 <= j < |hub|
  {
  }

  lemma LeafGives(nm: Naming, s: ConfigKey, hub: seq<ConfigKey>, j: int)
    requires LeafAt(nm, s, hub, j)
    ensures 0 <= j < |hub| && Judge(nm, s, hub) == Leaf(hub[j])
  {
    hide Judge, AllWith, NoneHas, FullKey, CanonKey, LeafKey, Unambiguous, CanonicalAt, LastToken;
    JudgeIs(nm, s, hub);
    NoCandidates(FullKey(nm), hub, nm.normalize(s.key));
    if Unambiguous(AllWith(CanonKey(nm), hub, nm.canonicalize(s.key))).Some? {
      CanonicalNeeds(nm, s, hub);
    }
    FirstIsHead(LeafKey(nm), hub, LastToken(nm.normalize(s.key)), j);
  }

  lemma ExactNeeds(nm: Naming, s: ConfigKey, hub: seq<ConfigKey>)
    requires !NoneHas(FullKey(nm), hub, nm.normalize(s.key))
    ensures exists j :: ExactAt(nm, s, hub, j)
  {
    hide NoneHas, FullKey, FirstHas;
    var j := SomeFirst(FullKey(nm), hub, nm.normalize(s.key));
    assert ExactAt(nm, s, hub, j);
  }

  lemma LeafNeeds(nm: Naming, s: ConfigKey, hub: seq<ConfigKey>)
    requires NoneHas(FullKey(nm), hub, nm.normalize(s.key)) && forall k :: !CanonicalAt(nm, s, hub, k)
    requires |AllWith(LeafKey(nm), hub, LastToken(nm.normalize(s.key)))| == 1
    ensures exists j :: LeafAt(nm, s, hub, j)
  {
    hide AllWith, NoneHas, FullKey, CanonKey, LeafKey, CanonicalAt, LastToken, FirstHas, OnlyHas;
    var f, n := LeafKey(nm), LastToken(nm.normalize(s.key));
    NoCandidates(f, hub, n);
    var j := SomeFirst(f, hub, n);
    FirstIsHead(f, hub, n, j);
    assert LeafAt(nm, s, hub, j);
  }

  /** A key that is no orphan has a tier that answers. */
  lemma OrphanUnless(nm: Naming, s: ConfigKey, hub: seq<ConfigKey>)
    requires !Judge(nm, s, hub).Orphan?
    ensures exists j :: ExactAt(nm, s, hub, j) || CanonicalAt(nm, s, hub, j) || LeafAt(nm, s, hub, j)
  {
    hide *;
    JudgeIs(nm, s, hub);
    NoCandidates(FullKey(nm), hub, nm.normalize(s.key));
    if !NoneHas(FullKey(nm), hub, nm.normalize(s.key)) {
      ExactNeeds(nm, s, hub);
    } else if Unambiguous(AllWith(CanonKey(nm), hub, nm.canonicalize(s.key))).Some? {
      CanonicalNeeds(nm, s, hub);
    } else if forall k :: !CanonicalAt(nm, s, hub, k) {
      LeafNeeds(nm, s, hub);
    }
  }

  /** The verdict of a key is exactly what the tiers say of the hub: the entry is
      the tier's, and an orphan has none. */
  lemma VerdictIff(nm: Naming, s: ConfigKey, hub: seq<ConfigKey>)
    ensures forall j :: ExactAt(nm, s, hub, j) ==> 0 <= j < |hub| && Judge(nm, s, hub) == Exact(hub[j])
    ensures forall j :: CanonicalAt(nm, s, hub, j) ==> 0 <= j < |hub| && Judge(nm, s, hub) == Canonical(hub[j])
    ensures forall j :: LeafAt(nm, s, hub, j) ==> 0 <= j < |hub| && Judge(nm, s, hub) == Leaf(hub[j])
    ensures (forall j :: !ExactAt(nm, s, hub, j) && !CanonicalAt(nm, s, hub, j) && !LeafAt(nm, s, hub, j)) <==>
            Judge(nm, s, hub).Orphan?
  {
    hide Judge, ExactAt, CanonicalAt, LeafAt;
    forall j | ExactAt(nm, s, hub, j) ensures 0 <= j < |hub| && Judge(nm, s, hub) == Exact(hub[j]) {
      ExactGives(nm, s, hub, j);
    }
    forall j | CanonicalAt(nm, s, hub, j) ensures 0 <= j < |hub| && Judge(nm, s, hub) == Canonical(hub[j]) {
      CanonicalGives(nm, s, hub, j);
    }
    forall j | LeafAt(nm, s, hub, j) ensures 0 <= j < |hub| && Judge(nm, s, hub) == Leaf(hub[j]) {
      LeafGives(nm, s, hub, j);
    }
    if !Judge(nm, s, hub).Orphan? {
      OrphanUnless(nm, s, hub);
    }
  }

  /** What is returned for each spoke key: the next orphan when no tier answers,
      and otherwise the next match, between the key and the tier's entry, scored
      by the tier and by whether both values are known and equal. */
  lemma ReturnedInOrder(nm: Naming, spoke: seq<ConfigKey>, hub: seq<ConfigKey>, i: nat)
    requires i < |spoke|
    ensures |Matches(nm, spoke, hub)| + |Orphans(nm, spoke, hub)| == |spoke|
    ensures var s, b := spoke[i], |Matches(nm, spoke[..i], hub)|;
            && b <= i
            && ((forall j :: !ExactAt(nm, s, hub, j) && !CanonicalAt(nm, s, hub, j) && !LeafAt(nm, s, hub, j)) ==>
                  i - b < |Orphans(nm, spoke, hub)| && Orphans(nm, spoke, hub)[i - b] == s)
            && (forall j :: ExactAt(nm, s, hub, j) ==>
                  && b < |Matches(nm, spoke, hub)| && 0 <= j < |hub|
                  && Matches(nm, spoke, hub)[b] == KeyMatch(s.key, s.file, hub[j].key, hub[j].file,
                       if s.valueKnown && hub[j].valueKnown && s.value == hub[j].value then 0.98 else 0.9))
            && (forall j :: CanonicalAt(nm, s, hub, j) ==>
                  && b < |Matches(nm, spoke, hub)| && 0 <= j < |hub|
                  && Matches(nm, spoke, hub)[b] == KeyMatch(s.key, s.file, hub[j].key, hub[j].file,
                       if s.valueKnown && hub[j].valueKnown && s.value == hub[j].value then 0.95 else 0.85))
            && (forall j :: LeafAt(nm, s, hub, j) ==>
                  && b < |Matches(nm, spoke, hub)| && 0 <= j < |hub|
                  && Matches(nm, spoke, hub)[b] == KeyMatch(s.key, s.file, hub[j].key, hub[j].file, 0.55))
  {
    hide Judge, ExactAt, CanonicalAt, LeafAt, Matches, Orphans;
    PartitionInOrder(nm, spoke, hub, i);
    VerdictIff(nm, spoke[i], hub);
  }

  lemma UnambiguousMeans(cands: seq<ConfigKey>)
    ensures Unambiguous(cands).Some? ==>
              && Unambiguous(cands).value in cands
              && forall h :: h in cands ==> h.key == Unambiguous(cands).value.key
  {
  }

  lemma CandidatesAre(f: ConfigKey -> string, hub: seq<ConfigKey>, n: string)
    ensures forall h :: h in AllWith(f, hub, n) <==> h in hub && f(h) == n
    ensures AllWith(f, hub, n) != [] ==> AllWith(f, hub, n)[0] in AllWith(f, hub, n)
  {
    forall h ensures h in AllWith(f, hub, n) <==> h in hub && f(h) == n {
      AllWithMember(f, hub, n, h);
      assert h in AllWith(f, hub, n) <==> h in multiset(AllWith(f, hub, n));
      assert h in hub <==> h in multiset(hub);
    }
  }

  lemma {:induction false} AllWithAppend(f: ConfigKey -> string, hub: seq<ConfigKey>, more: seq<ConfigKey>, n: string)
    ensures AllWith(f, hub + more, n) == AllWith(f, hub, n) + AllWith(f, more, n)
  {
    if more == [] {
      assert hub + more == hub;
    } else {
      var front := more[..|more| - 1];
      AllWithAppend(f, hub, front, n);
      assert (hub + more)[..|hub + more| - 1] == hub + front;
    }
  }

  /** Growing the hub never changes an exact match. */
  lemma AppendingKeepsExact(nm: Naming, s: ConfigKey, hub: seq<ConfigKey>, more: seq<ConfigKey>)
    requires Judge(nm, s, hub).Exact?
    ensures Judge(nm, s, hub + more) == Judge(nm, s, hub)
  {
    AllWithAppend(FullKey(nm), hub, more, FullKey(nm)(s));
  }

  lemma PermutedCandidates(f: ConfigKey -> string, hub: seq<ConfigKey>, hub': seq<ConfigKey>, n: string)
    requires multiset(hub) == multiset(hub')
    ensures multiset(AllWith(f, hub, n)) == multiset(AllWith(f, hub', n))
    ensures |AllWith(f, hub, n)| == |AllWith(f, hub', n)|
    ensures forall h :: h in AllWith(f, hub, n) <==> h in AllWith(f, hub', n)
  {
    var a, b := AllWith(f, hub, n), AllWith(f, hub', n);
    forall h ensures multiset(a)[h] == multiset(b)[h] {
      AllWithMember(f, hub, n, h);
      AllWithMember(f, hub', n, h);
    }
    assert multiset(a) == multiset(b);
    assert |a| == |multiset(a)| == |multiset(b)| == |b|;
    forall h ensures h in a <==> h in b {
      assert h in a <==> h in multiset(a);
      assert h in b <==> h in multiset(b);
    }
  }

  lemma UnambiguousIgnoresOrder(a: seq<ConfigKey>, b: seq<ConfigKey>)
    requires forall h :: h in a <==> h in b
    ensures Unambiguous(a).Some? <==> Unambiguous(b).Some?
    ensures Unambiguous(a).Some? ==> Unambiguous(a).value.key == Unambiguous(b).value.key
  {
    if a != [] {
      assert a[0] in b;
    }
    if b != [] {
      assert b[0] in a;
    }
    if Unambiguous(a).Some? {
      forall i | 0 <= i < |b| ensures b[i].key == b[0].key {
        assert b[i] in a && b[0] in a;
      }
    }
    if Unambiguous(b).Some? {
      forall i | 0 <= i < |a| ensures a[i].key == a[0].key {
        assert a[i] in b && a[0] in b;
      }
    }
  }

  /** Reordering the hub changes no verdict's tier, and no hub key a canonical
      or a leaf match names; an exact match keeps its hub key when the entries
      it could name agree on one. */
  lemma PermutingKeepsVerdict(nm: Naming, s: ConfigKey, hub: seq<ConfigKey>, hub': seq<ConfigKey>)
    requires multiset(hub) == multiset(hub')
    ensures var v, v' := Judge(nm, s, hub), Judge(nm, s, hub');
            && (v.Exact? <==> v'.Exact?) && (v.Canonical? <==> v'.Canonical?) && (v.Leaf? <==> v'.Leaf?)
            && (v.Canonical? || v.Leaf? ==> v.h.key == v'.h.key)
            && (v.Exact? && Unambiguous(AllWith(FullKey(nm), hub, FullKey(nm)(s))).Some? ==> v.h.key == v'.h.key)
  {
    hide AllWith, FullKey, CanonKey, LeafKey, Unambiguous;
    var full, full' := AllWith(FullKey(nm), hub, FullKey(nm)(s)), AllWith(FullKey(nm), hub', FullKey(nm)(s));
    var canon, canon' := AllWith(CanonKey(nm), hub, CanonKey(nm)(s)), AllWith(CanonKey(nm), hub', CanonKey(nm)(s));
    var leaf, leaf' := AllWith(LeafKey(nm), hub, LeafKey(nm)(s)), AllWith(LeafKey(nm), hub', LeafKey(nm)(s));
    PermutedCandidates(FullKey(nm), hub, hub', FullKey(nm)(s));
    PermutedCandidates(CanonKey(nm), hub, hub', CanonKey(nm)(s));
    PermutedCandidates(LeafKey(nm), hub, hub', LeafKey(nm)(s));
    UnambiguousIgnoresOrder(canon, canon');
    UnambiguousIgnoresOrder(full, full');
    UnambiguousIsFirst(full);
    UnambiguousIsFirst(full');
    if |leaf| == 1 {
      assert leaf'[0] in leaf;
    }
  }

  lemma UnambiguousIsFirst(cands: seq<ConfigKey>)
    ensures Unambiguous(cands).Some? ==> cands != [] && Unambiguous(cands).value == cands[0]
  {
  }

  /** A stronger tier does not always score higher: a canonical match outscores
      an exact one exactly when only the canonical one's values agree. */
  lemma ConfidenceFollowsTierUnless(s: ConfigKey, v: Verdict, s': ConfigKey, v': Verdict)
    requires v.Exact? && v'.Canonical?
    ensures MatchOf(s', v').confidence > MatchOf(s, v).confidence <==> ValuesAgree(v'.h, s') && !ValuesAgree(v.h, s)
  {
  }

  /** A file that renames a key's convention and keeps its value outscores one
      that keeps the key and changes the value. */
  lemma RenamedKeyOutscoresOverride(nm: Naming)
    requires nm.normalize("server_endpoint") != nm.normalize("serverEndpoint")
    requires nm.normalize("addr") != nm.normalize("serverEndpoint")
    requires nm.canonicalize("server_endpoint") == nm.canonicalize("serverEndpoint") != nm.canonicalize("addr")
    ensures var hub := [ConfigKey("app.toml", "addr", "a", true), ConfigKey("app.toml", "server_endpoint", "b", true)];
            var changed, renamed := ConfigKey("x.yaml", "addr", "c", true),
                ConfigKey("x.yaml", "serverEndpoint", "b", true);
            && Judge(nm, changed, hub) == Exact(hub[0]) && MatchOf(changed, Exact(hub[0])).confidence == 0.9
            && Judge(nm, renamed, hub) == Canonical(hub[1]) && MatchOf(renamed, Canonical(hub[1])).confidence == 0.95
  {
    hide LeafKey;
    var hub := [ConfigKey("app.toml", "addr", "a", true), ConfigKey("app.toml", "server_endpoint", "b", true)];
    var changed, renamed := ConfigKey("x.yaml", "addr", "c", true), ConfigKey("x.yaml", "serverEndpoint", "b", true);
    TwoCandidates(FullKey(nm), hub[0], hub[1], FullKey(nm)(changed));
    TwoCandidates(FullKey(nm), hub[0], hub[1], FullKey(nm)(renamed));
    TwoCandidates(CanonKey(nm), hub[0], hub[1], CanonKey(nm)(renamed));
  }

  lemma TwoCandidates(f: ConfigKey -> string, a: ConfigKey, b: ConfigKey, n: string)
    ensures AllWith(f, [a, b], n) == (if f(a) == n then [a] else []) + if f(b) == n then [b] else []
  {
    assert AllWith(f, [], n) == [];
    AllWithSnoc(f, [], a, n);
    AllWithSnoc(f, [a], b, n);
    assert [] + [a] == [a] && [a] + [b] == [a, b];
  }
}
