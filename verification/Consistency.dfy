/** The laws assumed of the library calls do not contradict each other: small instances that obey
    them, with a producer whose delta a client accepts. */
module Consistency {
  import opened Outcomes
  import opened Text
  import opened Ordering
  import opened Cidr
  import opened NetworkMap
  import opened Environment
  import opened MapValidation
  import opened MapSign
  import opened MapStream
  import opened Convergence
  import opened Merge
  import SigningTrust
  import Sharing
  import Applications
  import Acl
  import MapSafety
  import NodeCredential
  import GateKey
  import Promotion

  // ----- a sort -----

  function Insert<T>(x: T, s: seq<T>, key: T -> SortKey): seq<T> {
    if s == [] then [x]
    else if KeyLeq(key(x), key(s[0])) then [x] + s
    else [s[0]] + Insert(x, s[1..], key)
  }

  function InsertionSort<T>(s: seq<T>, key: T -> SortKey): seq<T> {
    if s == [] then [] else Insert(s[0], InsertionSort(s[1..], key), key)
  }

  lemma {:induction false} LeqTotal(a: string, b: string)
    ensures Leq(a, b) || Leq(b, a)
  {
    if a != "" && b != "" && a[0] == b[0] {
      LeqTotal(a[1..], b[1..]);
    }
  }

  lemma {:induction false} LeqTransitive(a: string, b: string, c: string)
    requires Leq(a, b) && Leq(b, c)
    ensures Leq(a, c)
  {
    if a != "" && b != "" && c != "" && a[0] == b[0] == c[0] {
      LeqTransitive(a[1..], b[1..], c[1..]);
    }
  }

  lemma KeyLeqTotal(a: SortKey, b: SortKey)
    ensures KeyLeq(a, b) || KeyLeq(b, a)
  {
    LeqTotal(a.0, b.0);
    LeqTotal(a.1, b.1);
  }

  lemma KeyLeqTransitive(a: SortKey, b: SortKey, c: SortKey)
    requires KeyLeq(a, b) && KeyLeq(b, c)
    ensures KeyLeq(a, c)
  {
    if a.0 == b.0 && b.0 == c.0 {
      LeqTransitive(a.1, b.1, c.1);
    } else if a.0 != b.0 && b.0 != c.0 {
      LeqTransitive(a.0, b.0, c.0);
      if a.0 == c.0 {
        LeqAntisymmetric(a.0, b.0);
      }
    }
  }

  lemma SortedCons<T(!new)>(x: T, s: seq<T>, key: T -> SortKey)
    requires SortedBy(s, key) && forall y | y in s :: KeyLeq(key(x), key(y))
    ensures SortedBy([x] + s, key)
  {
  }

  lemma {:induction false} InsertSorts<T(!new)>(x: T, s: seq<T>, key: T -> SortKey)
    requires SortedBy(s, key)
    ensures multiset(Insert(x, s, key)) == multiset{x} + multiset(s)
    ensures SortedBy(Insert(x, s, key), key)
  {
    hide KeyLeq;
    if s != [] {
      assert s == [s[0]] + s[1..];
      if KeyLeq(key(x), key(s[0])) {
        forall y | y in s
          ensures KeyLeq(key(x), key(y))
        {
          var i :| 0 <= i < |s| && s[i] == y;
          if i > 0 {
            KeyLeqTransitive(key(x), key(s[0]), key(y));
          }
        }
        SortedCons(x, s, key);
      } else {
        KeyLeqTotal(key(x), key(s[0]));
        InsertSorts(x, s[1..], key);
        var rest := Insert(x, s[1..], key);
        forall y | y in rest
          ensures KeyLeq(key(s[0]), key(y))
        {
          assert y in multiset(rest);
        }
        SortedCons(s[0], rest, key);
      }
    }
  }

  lemma {:induction false} InsertionSortSorts<T(!new)>(s: seq<T>, key: T -> SortKey)
    ensures SamePermutation(InsertionSort(s, key), s) && SortedBy(InsertionSort(s, key), key)
  {
    if s != [] {
      InsertionSortSorts(s[1..], key);
      InsertSorts(s[0], InsertionSort(s[1..], key), key);
      assert s == [s[0]] + s[1..];
    }
  }

  // ----- texts that can be told apart -----

  function Repeat(c: char, n: nat): (r: string)
    ensures |r| == n && forall i | 0 <= i < n :: r[i] == c
  {
    seq(n, i => c)
  }

  function EncodeText(s: string): string {
    if s == "" then "e" else ['x', s[0]] + EncodeText(s[1..])
  }

  function EncodeTexts(s: seq<string>): string {
    if s == [] then "e" else "x" + EncodeText(s[0]) + EncodeTexts(s[1..])
  }

  function EncodeInt(n: int): string {
    EncodeText(if n < 0 then "-" + Repeat('1', -n) else Repeat('1', n))
  }

  /** Texts are encoded so that their end can be told. */
  lemma {:induction false} TextPrefixFree(a: string, b: string, r: string, q: string)
    requires EncodeText(a) + r == EncodeText(b) + q
    ensures a == b && r == q
  {
    var x, y := EncodeText(a) + r, EncodeText(b) + q;
    if a == "" || b == "" {
      assert x[0] == (if a == "" then 'e' else 'x') && y[0] == (if b == "" then 'e' else 'x');
      assert x[1..] == r && y[1..] == q;
    } else {
      assert x[1] == a[0] && y[1] == b[0];
      assert x[2..] == EncodeText(a[1..]) + r && y[2..] == EncodeText(b[1..]) + q;
      TextPrefixFree(a[1..], b[1..], r, q);
      assert a == [a[0]] + a[1..] && b == [b[0]] + b[1..];
    }
  }

  lemma {:induction false} TextsPrefixFree(a: seq<string>, b: seq<string>, r: string, q: string)
    requires EncodeTexts(a) + r == EncodeTexts(b) + q
    ensures a == b && r == q
  {
    hide EncodeText;
    var x, y := EncodeTexts(a) + r, EncodeTexts(b) + q;
    if a == [] || b == [] {
      assert x[0] == (if a == [] then 'e' else 'x') && y[0] == (if b == [] then 'e' else 'x');
      assert x[1..] == r && y[1..] == q;
    } else {
      var restA, restB := EncodeTexts(a[1..]) + r, EncodeTexts(b[1..]) + q;
      assert x[1..] == EncodeText(a[0]) + restA && y[1..] == EncodeText(b[0]) + restB;
      TextPrefixFree(a[0], b[0], restA, restB);
      TextsPrefixFree(a[1..], b[1..], r, q);
      assert a == [a[0]] + a[1..] && b == [b[0]] + b[1..];
    }
  }

  lemma IntPrefixFree(m: int, n: int, r: string, q: string)
    requires EncodeInt(m) + r == EncodeInt(n) + q
    ensures m == n && r == q
  {
    hide EncodeText;
    var a := if m < 0 then "-" + Repeat('1', -m) else Repeat('1', m);
    var b := if n < 0 then "-" + Repeat('1', -n) else Repeat('1', n);
    TextPrefixFree(a, b, r, q);
    assert m < 0 ==> a[0] == '-';
    assert n < 0 ==> b[0] == '-';
  }

  // ----- a text for prefixes -----

  function ShowPrefix(p: Prefix): string {
    EncodeInt(Width(p.addr.family)) + (EncodeInt(p.addr.num) + EncodeInt(p.bits))
  }

  ghost function ParsePrefix(s: string): Option<Prefix> {
    if p: Prefix :| ShowPrefix(p) == s then Some(p) else None
  }

  lemma PrefixRoundTrip(p: Prefix)
    ensures ParsePrefix(ShowPrefix(p)) == Some(p)
  {
    hide EncodeInt, Pow2;
    var q := ParsePrefix(ShowPrefix(p)).value;
    var p2, q2 := EncodeInt(p.bits), EncodeInt(q.bits);
    IntPrefixFree(Width(p.addr.family), Width(q.addr.family), EncodeInt(p.addr.num) + p2, EncodeInt(q.addr.num) + q2);
    IntPrefixFree(p.addr.num, q.addr.num, p2, q2);
    assert p2 + "" == q2 + "";
    IntPrefixFree(p.bits, q.bits, "", "");
  }

  // ----- private addresses -----

  lemma Pow2Of24()
    ensures Pow2(24) == 16_777_216 && Pow2(28) == 268_435_456
  {
    hide Pow2;
    Pow2Values();
    Pow2Add(16, 8);
    Pow2Add(24, 4);
  }

  /** 10.0.0.1, 10.0.0.2 and 10.0.0.3. */
  function PrivateAddress(n: nat): Addr
    requires n < 256
  {
    PrivateFits(n);
    Addr(V4, 167_772_160 + n)
  }

  lemma PrivateFits(n: nat)
    requires n < 256
    ensures 167_772_160 + n < Pow2(32)
  {
    hide Pow2;
    Pow2Of24();
    Pow2Add(28, 4);
    Pow2Values();
  }

  function PrivateHost(n: nat): Prefix
    requires n < 256
  {
    Prefix(PrivateAddress(n), 32)
  }

  /** Its text. */
  function HostTextOf(n: nat): string
    requires n < 256
  {
    ShowPrefix(PrivateHost(n))
  }

  lemma PrivateIsOrdinary(n: nat)
    requires n < 256
    ensures Sharing.Ordinary(PrivateAddress(n)) && !Applications.ForbiddenAddress(PrivateAddress(n))
  {
    hide Pow2, PrivateAddress;
    hide Applications.ForbiddenAddress;
    var a := PrivateAddress(n);
    assert a.family == V4 && a.num == 167_772_160 + n by { PrivateNumber(n); }
    Pow2Of24();
    Pow2Values();
    QuotientUnique(a.num, 16_777_216, 10, n);
    QuotientUnique(a.num, 65536, 2560, n);
    QuotientUnique(a.num, 268_435_456, 0, a.num);
    Applications.ForbiddenIff(a);
  }

  lemma PrivateNumber(n: nat)
    requires n < 256
    ensures PrivateAddress(n).family == V4 && PrivateAddress(n).num == 167_772_160 + n
  {
    hide Pow2;
  }

  // ----- an environment -----

  function KeyId(k: Bytes): string {
    "k" + seq(|k|, i requires 0 <= i < |k| => k[i] as char) + "k"
  }

  lemma KeyIdInjective(j: Bytes, k: Bytes)
    requires KeyId(j) == KeyId(k)
    ensures j == k
  {
    assert |j| == |KeyId(j)| - 2 && |k| == |KeyId(k)| - 2;
    forall i | 0 <= i < |j|
      ensures j[i] == k[i]
    {
      assert KeyId(j)[i + 1] == j[i] as char && KeyId(k)[i + 1] == k[i] as char;
      assert j[i] as char as int == k[i] as char as int;
    }
  }

  function Hash(p: Payload): string {
    "h" + Repeat('h', p.revision.network)
  }

  /** The text "key" is the producer's public key, any other text somebody else's. */
  const Producer: Bytes := []
  const Mallory: Bytes := [0]

  function Keys(signed: (Bytes, Payload) -> bool): Crypto {
    Crypto(text => Some(if text == "key" then Producer else Mallory), KeyId, text => Some([]), (key, payload, raw) => signed(key, payload), Hash)
  }

  lemma KeysAreLawful(signed: (Bytes, Payload) -> bool)
    ensures LawfulCrypto(Keys(signed)) && Unforgeable(Keys(signed), signed)
  {
    var c := Keys(signed);
    forall j, k | c.keyId(j) == c.keyId(k)
      ensures j == k
    {
      KeyIdInjective(j, k);
    }
  }

  function AnyFields(): Fields {
    Fields(_ => true, _ => true, _ => true, _ => true, _ => true, _ => true, relays => |relays| == 0, _ => true, _ => true)
  }

  lemma AnyFieldsAreLawful()
    ensures LawfulRelays(AnyFields())
  {
    forall a: seq<Relay>, b: seq<Relay> | SamePermutation(a, b) && |a| == 0
      ensures |b| == 0
    {
      MembersOfPermutation(a, b);
    }
  }

  ghost function AnyNet(): Net {
    Net(s => ParsePrefix(s), ShowPrefix, text => if text == "own" then Some(PrivateAddress(1)) else None, s => InsertionSort(s, TextKey),
        _ => true, _ => true, _ => true, _ => true, _ => true)
  }

  lemma AnyNetIsLawful()
    ensures LawfulNet(AnyNet())
  {
    forall p: Prefix
      ensures AnyNet().parsePrefix(AnyNet().showPrefix(p)) == Some(p)
    {
      PrefixRoundTrip(p);
    }
    forall s
      ensures SamePermutation(AnyNet().sortStrings(s), s) && SortedBy(AnyNet().sortStrings(s), TextKey)
    {
      InsertionSortSorts(s, TextKey);
    }
  }

  function KeySorters(): Sorters {
    Sorters(s => InsertionSort(s, PeerKey), s => InsertionSort(s, StunKey), s => InsertionSort(s, RelayKey))
  }

  lemma KeySortersAreLawful()
    ensures LawfulSorters(KeySorters())
  {
    forall s
      ensures SamePermutation(KeySorters().peers(s), s) && SortedBy(KeySorters().peers(s), PeerKey)
    {
      InsertionSortSorts(s, PeerKey);
    }
    forall s
      ensures SamePermutation(KeySorters().stun(s), s) && SortedBy(KeySorters().stun(s), StunKey)
    {
      InsertionSortSorts(s, StunKey);
    }
    forall s
      ensures SamePermutation(KeySorters().relays(s), s) && SortedBy(KeySorters().relays(s), RelayKey)
    {
      InsertionSortSorts(s, RelayKey);
    }
  }

  ghost function SampleEnv(signed: (Bytes, Payload) -> bool): Env {
    Env(AnyNet(), AnyFields(), Keys(signed), KeySorters())
  }

  lemma SampleEnvIsLawful(signed: (Bytes, Payload) -> bool)
    ensures Lawful(SampleEnv(signed)) && Unforgeable(SampleEnv(signed).crypto, signed)
  {
    hide LawfulNet, LawfulSorters, LawfulCrypto, LawfulRelays;
    AnyNetIsLawful();
    AnyFieldsAreLawful();
    KeysAreLawful(signed);
    KeySortersAreLawful();
  }

  // ----- a producer that adds one peer -----

  const SomeNetwork := Network("n", "", "", "", [], None, [], [], [], "", "", "", 0, "", "", 0)
  const SomeNode := Node("d", "n", "", "", "", "", "", "", "", "", 0, [], None, "", [], [], [], "", false, false, None, 0, 0, 0)
  const SomePeer := Peer("p", "n", "", "", "", 0, [], None, "", [], [], false, [], [])

  /** Issued at 1, valid until 100. */
  function SignatureOf(revision: nat): MapSignature {
    MapSignature(VERSION, "kk", ALGORITHM, 1, 100, "h" + Repeat('h', revision), "s")
  }

  function MapOf(revision: nat, peers: seq<Peer>): Snapshot {
    Snapshot(MapRevision(revision, 0), SomeNetwork, SomeNode, peers, "", [], [], None, Some(SignatureOf(revision)))
  }

  function PayloadOf(revision: nat, peers: seq<Peer>): Payload {
    Payload(VERSION, "kk", 1, 100, MapRevision(revision, 0), "", SomeNetwork, SomeNode, peers, [], [])
  }

  /** The producer signed its two maps; somebody else signs anything. */
  predicate Signed(key: Bytes, p: Payload) {
    key == Mallory || p == PayloadOf(0, []) || p == PayloadOf(1, [SomePeer])
  }

  const SomeTrust := SigningTrustBundle(1, "kk", [SigningTrustKey("kk", "ed25519", "key", None, None)])

  const Addition := Event(
    "delta", "e", MapRevision(0, 0), MapRevision(1, 0), "h", None,
    Some(Delta(None, None, [SomePeer], [], None, [], [], None)), Some(SignatureOf(1)))

  const SomeHistory := History([MapOf(0, []), MapOf(1, [SomePeer])], [Addition])

  lemma Texts()
    ensures TrimSpace("n") == "n" && TrimSpace("d") == "d" && TrimSpace("p") == "p" && TrimSpace("e") == "e"
    ensures TrimSpace("h") == "h" && TrimSpace("kk") == "kk" && TrimSpace("key") == "key" && TrimSpace("") == ""
    ensures TrimSpace("ed25519") == "ed25519"
  {
    hide TrimSpace;
    TrimSpaceIdempotent("n");
    TrimSpaceIdempotent("d");
    TrimSpaceIdempotent("p");
    TrimSpaceIdempotent("e");
    TrimSpaceIdempotent("h");
    TrimSpaceIdempotent("kk");
    TrimSpaceIdempotent("key");
    TrimSpaceIdempotent("");
    TrimSpaceIdempotent("ed25519");
  }

  lemma SomePayload(env: Env, revision: nat, peers: seq<Peer>)
    requires env == SampleEnv(Signed) && |peers| <= 1
    ensures Canonical(env, MapOf(revision, peers), "kk", 1, 100) == PayloadOf(revision, peers)
  {
    hide TrimSpace;
    Texts();
    if |peers| == 1 {
      assert InsertionSort(peers[1..], PeerKey) == [];
      assert InsertionSort(peers, PeerKey) == peers;
    }
  }

  lemma SomePeerAccepted(env: Env)
    requires env == SampleEnv(Signed)
    ensures PeerAccepted(env, SomePeer)
  {
    hide TrimSpace;
    Texts();
  }

  lemma SomeListsAccepted(env: Env, revision: nat, peers: seq<Peer>)
    requires env == SampleEnv(Signed) && (peers == [] || peers == [SomePeer])
    ensures ListsAccepted(env, MapOf(revision, peers))
  {
    hide PeerAccepted;
    SomePeerAccepted(env);
    assert forall p | p in peers :: p == SomePeer;
  }

  lemma SomeHeaderAccepted(env: Env, revision: nat, peers: seq<Peer>)
    requires env == SampleEnv(Signed)
    ensures HeaderAccepted(env, MapOf(revision, peers))
  {
    hide TrimSpace;
    Texts();
  }

  lemma SomeSharesAccepted(net: Net, revision: nat, peers: seq<Peer>)
    requires peers == [] || peers == [SomePeer]
    ensures Sharing.SharesAccepted(net, MapOf(revision, peers))
  {
    assert forall p | p in peers :: Sharing.PeerExplained(MapOf(revision, peers), p);
  }

  lemma SomeMapAccepted(env: Env, revision: nat, peers: seq<Peer>)
    requires env == SampleEnv(Signed) && (peers == [] || peers == [SomePeer])
    ensures MapAccepted(env, MapOf(revision, peers))
  {
    hide HeaderAccepted, ListsAccepted, SampleEnv;
    hide Sharing.SharesAccepted;
    SomeHeaderAccepted(env, revision, peers);
    SomeListsAccepted(env, revision, peers);
    SomeSharesAccepted(env.net, revision, peers);
  }

  lemma SomeTrustIsValid(c: Crypto)
    requires c == Keys(Signed)
    ensures SigningTrust.BundleValid(c, SomeTrust)
  {
    hide TrimSpace;
    Texts();
    var key := SomeTrust.keys[0];
    assert KeyId(Producer) == "kk";
    assert SigningTrust.KeyAccepted(c, key);
    assert key in SomeTrust.keys && SigningTrust.TrimmedKeyId(key) == "kk";
  }

  lemma SomeMapPublished(env: Env, revision: nat, peers: seq<Peer>)
    requires env == SampleEnv(Signed)
    requires (revision == 0 && peers == []) || (revision == 1 && peers == [SomePeer])
    ensures Published(env, MapOf(revision, peers)) && SignedUnder(env, MapOf(revision, peers), "key")
  {
    hide TrimSpace, MapAccepted, Canonical;
    Texts();
    SomePayload(env, revision, peers);
    SomeMapAccepted(env, revision, peers);
    assert KeyId(Producer) == "kk";
    assert Signed(Producer, PayloadOf(revision, peers));
    assert env.crypto.verify(Producer, PayloadOf(revision, peers), []);
    assert Hash(PayloadOf(revision, peers)) == SignatureOf(revision).payloadHash;
  }

  lemma SomeMapVouched(env: Env)
    requires env == SampleEnv(Signed)
    ensures Vouches(env, SomeTrust, MapOf(1, [SomePeer]), SomeTrust.keys[0]) && Open(MapOf(1, [SomePeer]), SomeTrust.keys[0], 1)
  {
    hide SignedUnder, Published;
    hide SigningTrust.BundleValid;
    SomeTrustIsValid(env.crypto);
    SomeMapPublished(env, 1, [SomePeer]);
  }

  /** Merging into an empty list. */
  lemma MergeIntoEmpty<T(!new)>(upserts: seq<T>, id: T -> string, key: T -> string)
    requires |upserts| <= 1 && forall u | u in upserts :: key(u) != ""
    ensures Merged([], upserts, [], id, key) == Ok(upserts)
  {
    IdListAccepted(Map([], TrimSpace));
    IdListAccepted(Map(upserts, key));
    assert Map([], id) == [];
    if upserts != [] {
      assert upserts[..0] == [];
      assert Additions([], upserts, id, key) == upserts;
    }
  }

  lemma AdditionConnects()
    ensures Connects(Addition, MapOf(0, []), MapOf(1, [SomePeer]))
  {
    hide TrimSpace, Merged;
    Texts();
    MergeIntoEmpty([SomePeer], PeerId, TrimmedPeerId);
    MergeIntoEmpty([], RelayId, TrimmedRelayId);
    assert SignatureOf(0).payloadHash == "h";
    assert ApplyDelta(MapOf(0, []), Addition.delta.value).Ok?;
  }

  /** The assumptions of the convergence and authenticity results hold together, with a client that
      moves and a stranger who has signed what the producer never published. */
  lemma AssumptionsAreMet() returns (env: Env, h: History, trust: SigningTrustBundle, now: Time)
    ensures Lawful(env) && Unforgeable(env.crypto, Signed)
    ensures forall key, p | Signed(key, p) && Trusts(env.crypto, trust, key) ::
              exists m, keyId, from, to | m in h.maps :: p == Canonical(env, m, keyId, from, to)
    ensures Signed(Mallory, PayloadOf(2, [])) && forall m | m in h.maps :: m.revision != PayloadOf(2, []).revision
    ensures Valid(env, h) && |h.events| == 1
    ensures exists key :: Vouches(env, trust, h.maps[1], key) && Open(h.maps[1], key, now)
    ensures At(h, Run(env, trust, h.maps[0], [Delivery(h.events[0], now)]), 1)
  {
    hide Lawful, Unforgeable, Canonical, Valid, Next, Run, Vouches, Open, Trusts, At, Signed, MapOf, PayloadOf, SampleEnv;
    env, h, trust, now := SampleEnv(Signed), SomeHistory, SomeTrust, 1;
    SampleEnvIsLawful(Signed);
    SomeHistoryIsValid(env);
    TrustedSignedOnlyMaps(env);
    StrangerSigns();
    SomeMapVouched(env);
    AtStart();
    NextDeltaIsAccepted(env, h, trust, h.maps[0], 0, SomeTrust.keys[0], now);
    RunOnce(env, trust, h.maps[0], Delivery(h.events[0], now));
  }

  lemma StrangerSigns()
    ensures Signed(Mallory, PayloadOf(2, [])) && forall m | m in SomeHistory.maps :: m.revision != PayloadOf(2, []).revision
  {
  }

  lemma AtStart()
    ensures At(SomeHistory, SomeHistory.maps[0], 0)
  {
  }

  lemma RunOnce(env: Env, trust: SigningTrustBundle, initial: Snapshot, d: Delivery)
    ensures Run(env, trust, initial, [d]) == Next(env, initial, d.event, trust, d.now)
  {
    hide Next;
    assert [d][..0] == [];
  }

  lemma SomeHistoryIsValid(env: Env)
    requires env == SampleEnv(Signed)
    ensures Valid(env, SomeHistory)
  {
    hide Published, Connects, MapOf;
    var first, second := MapOf(0, []), MapOf(1, [SomePeer]);
    SomeMapPublished(env, 0, []);
    SomeMapPublished(env, 1, [SomePeer]);
    AdditionConnects();
    RevisionOf(0, []);
    RevisionOf(1, [SomePeer]);
    TwoMaps(env, first, second, Addition);
  }

  lemma RevisionOf(revision: nat, peers: seq<Peer>)
    ensures MapOf(revision, peers).revision == MapRevision(revision, 0)
  {
  }

  lemma TwoMaps(env: Env, first: Snapshot, second: Snapshot, e: Event)
    requires Published(env, first) && Published(env, second) && Connects(e, first, second) && Distinguished(first, second)
    ensures Valid(env, History([first, second], [e]))
  {
    hide Published, Connects;
  }

  lemma TrustedSignedOnlyMaps(env: Env)
    requires env == SampleEnv(Signed)
    ensures forall key, p | Signed(key, p) && Trusts(env.crypto, SomeTrust, key) ::
              exists m, keyId, from, to | m in SomeHistory.maps :: p == Canonical(env, m, keyId, from, to)
  {
    hide Canonical, Trusts;
    SomePayload(env, 0, []);
    SomePayload(env, 1, [SomePeer]);
    assert SomeHistory.maps[0] in SomeHistory.maps && SomeHistory.maps[1] in SomeHistory.maps;
    OnlyProducerIsTrusted(env.crypto);
  }

  lemma OnlyProducerIsTrusted(c: Crypto)
    requires c == Keys(Signed)
    ensures forall key | Trusts(c, SomeTrust, key) :: key == Producer
  {
    hide TrimSpace;
    Texts();
  }

  // ----- a map that uses every feature -----

  function RichPeer(): Peer {
    Peer("p", "m", "", "q", "", 0, [], None, "", [HostTextOf(2)], [], true,
         [AclGrant([HostTextOf(2)], [AclPort("tcp", 443), AclPort("icmp", 0)])], [])
  }

  function RichGrant(): SharePeerGrant {
    SharePeerGrant(
      "g", "m", "p", "q", [HostTextOf(2)], "n", "d", "k", [HostTextOf(1)],
      [ShareTraffic("tcp", 443, 443), ShareTraffic("udp", 1, 65535), ShareTraffic("icmp", 0, 0)],
      "recipient_only", 1, 1, 1 + 120 * SECOND)
  }

  function RichApplication(): Application {
    Application("a", "", "t", "domain", true, "", [ServiceHost("d", "k")], [ServiceHost("p", "q")],
                [ApplicationRoute(ServiceHost("p", "q"), [HostTextOf(3)], 1)])
  }

  function RichService(): AdvertisedService {
    AdvertisedService("s", "", "", "", [], [], [], "", "approved", "", [ServiceHost("p", "q"), ServiceHost("d", "k")])
  }

  function RichMap(): Snapshot {
    Snapshot(
      MapRevision(0, 0),
      SomeNetwork.(applications := [RichApplication()], services := [RichService()], sharePeerGrants := [RichGrant()]),
      SomeNode.(publicKey := "k", assignedIp := "own"), [RichPeer()], "", [StunEndpoint("x", "")], [],
      Some(RelayCredential("n", "d", "")), None)
  }

  lemma HostTextParses(n: nat)
    requires n < 256
    ensures AnyNet().parsePrefix(HostTextOf(n)) == Some(PrivateHost(n))
    ensures AnyNet().showPrefix(PrivateHost(n)) == HostTextOf(n)
  {
    hide ShowPrefix, ParsePrefix, PrivateHost;
    PrefixRoundTrip(PrivateHost(n));
  }

  lemma BlankParsesToNothing()
    ensures AnyNet().parsePrefix("").None?
  {
    hide EncodeInt;
    forall p: Prefix
      ensures ShowPrefix(p) != ""
    {
      EncodeIntEnds(p.bits);
    }
  }

  lemma EncodeIntEnds(n: int)
    ensures EncodeInt(n) != ""
  {
    hide EncodeText;
    EncodeTextEnds(if n < 0 then "-" + Repeat('1', -n) else Repeat('1', n));
  }

  lemma PrivateHolds(n: nat, a: Addr)
    requires n < 256
    ensures Contains(PrivateHost(n), a) <==> a == PrivateAddress(n)
    ensures Masked(PrivateHost(n)) == PrivateHost(n)
  {
    hide Pow2, PrivateAddress;
    PrivateNumber(n);
    HostIsItself(PrivateHost(n), a);
    MaskedHost(PrivateHost(n));
  }

  lemma MaskedHost(p: Prefix)
    requires IsHost(p)
    ensures Masked(p) == p
  {
    assert Size(p.addr.family, p.bits) == 1;
  }

  lemma RichRoutesReach(network: Network)
    requires network.cidr == "" && network.ipv6Cidr == ""
    ensures Applications.Reachable(AnyNet(), network, HostTextOf(3))
  {
    hide PrivateHost, PrivateAddress, HostTextOf, AnyNet, Contains, Masked;
    hide Applications.ForbiddenAddress;
    HostTextParses(3);
    BlankParsesToNothing();
    PrivateIsOrdinary(3);
    forall a: Addr
      ensures Contains(PrivateHost(3), a) <==> a == PrivateAddress(3)
    {
      PrivateHolds(3, a);
    }
    PrivateHolds(3, PrivateAddress(3));
  }

  lemma RichRouteScoped(network: Network)
    requires network.cidr == "" && network.ipv6Cidr == ""
    ensures Applications.RouteScoped(AnyNet(), network, RichApplication(), RichApplication().routes[0])
  {
    hide PrivateHost, HostTextOf, AnyNet, IsHost;
    hide Applications.Reachable;
    RichRoutesReach(network);
    HostTextParses(3);
    PrivateIsHost(3);
    assert "domain"[0] != "cidr"[0];
  }

  lemma RichHostsCurrent(s: Snapshot)
    requires s == RichMap()
    ensures Applications.HostsCurrent(s.node, s.peers, RichApplication().sources)
    ensures Applications.HostsCurrent(s.node, s.peers, RichApplication().connectors)
  {
    hide HostTextOf;
    assert RichPeer() in s.peers;
    assert forall p | p in s.peers :: p == RichPeer();
    assert "p"[0] != "d"[0];
  }

  lemma RichApplicationScoped(s: Snapshot)
    requires s == RichMap()
    ensures Applications.ApplicationScoped(AnyNet(), s.network, s.node, s.peers, RichApplication())
  {
    hide HostTextOf;
    hide Applications.RouteScoped, Applications.HostsCurrent;
    RichRouteScoped(s.network);
    RichHostsCurrent(s);
    assert "domain"[0] != "cidr"[0];
  }

  lemma PrivateIsHost(n: nat)
    requires n < 256
    ensures IsHost(PrivateHost(n)) && PrivateHost(n) == Prefix(PrivateAddress(n), 32)
  {
    hide Pow2, PrivateAddress;
    PrivateNumber(n);
  }

  lemma RichAcl()
    ensures Acl.AclAccepted(AnyNet(), RichPeer())
  {
    hide PrivateHost, HostTextOf, AnyNet, Contains, Masked, Is4In6;
    HostTextParses(2);
    PrivateHolds(2, PrivateAddress(2));
    assert !Is4In6(PrivateHost(2).addr) by { PrivateIsHost(2); NotMapped(2); }
    assert Acl.Routable(AnyNet(), RichPeer(), HostTextOf(2)) by { assert HostTextOf(2) in RichPeer().allowedIps; }
    Acl.AclAcceptedIff(AnyNet(), RichPeer());
  }

  lemma NotMapped(n: nat)
    requires n < 256
    ensures !Is4In6(PrivateAddress(n))
  {
    hide Pow2, PrivateAddress;
    PrivateNumber(n);
  }

  lemma RichHosts(n: nat)
    requires n < 256
    ensures Sharing.HostsSound(AnyNet(), [HostTextOf(n)])
  {
    hide PrivateHost, PrivateAddress, HostTextOf, AnyNet;
    hide Sharing.Ordinary;
    HostTextParses(n);
    PrivateIsHost(n);
    PrivateIsOrdinary(n);
    PrivateNumber(n);
  }

  lemma RichEnds()
    ensures Sharing.EndsSound(AnyNet(), RichGrant())
  {
    hide HostTextOf;
  }

  lemma RichRights()
    ensures Sharing.RightsSound(RichGrant().rights)
  {
    hide HostTextOf;
    var rights := RichGrant().rights;
    assert |rights| == 3 && rights[0].protocol == "tcp" && rights[1].protocol == "udp" && rights[2].protocol == "icmp";
    assert "tcp"[0] != "udp"[0] && "tcp"[0] != "icmp"[0] && "udp"[0] != "icmp"[0];
  }

  lemma RichHostsApart(a: Addr)
    ensures !(InRange(AnyNet(), HostTextOf(1), a) && InRange(AnyNet(), HostTextOf(2), a))
  {
    hide PrivateHost, PrivateAddress, HostTextOf, AnyNet, Contains;
    HostTextParses(1);
    HostTextParses(2);
    PrivateHolds(1, a);
    PrivateHolds(2, a);
    PrivateNumber(1);
    PrivateNumber(2);
  }

  lemma RichGrantAccepted()
    ensures Sharing.GrantAccepted(AnyNet(), RichGrant())
  {
    hide HostTextOf, AnyNet, InRange;
    hide Sharing.HostsSound, Sharing.EndsSound, Sharing.RightsSound, Sharing.GrantAccepted;
    RichHosts(1);
    RichHosts(2);
    RichEnds();
    RichRights();
    forall a: Addr
      ensures !(InRange(AnyNet(), HostTextOf(1), a) && InRange(AnyNet(), HostTextOf(2), a))
    {
      RichHostsApart(a);
    }
    Sharing.GrantAcceptedIff(AnyNet(), RichGrant());
  }

  lemma RichLocalBound(s: Snapshot)
    requires s == RichMap()
    ensures Sharing.LocalBound(AnyNet(), s, Sharing.Source(RichGrant()))
  {
    hide PrivateHost, PrivateAddress, ShowPrefix, ParsePrefix;
    PrivateIsHost(1);
    PrivateNumber(1);
    assert AnyNet().parseAddr("own") == Some(PrivateAddress(1));
    assert Sharing.AddressText(AnyNet(), "own") == Some([HostTextOf(1)]);
    assert Sharing.AddressText(AnyNet(), "") == Some([]);
    assert [HostTextOf(1)] + [] == [HostTextOf(1)];
  }

  lemma RichSharesAccepted(s: Snapshot)
    requires s == RichMap()
    ensures Sharing.SharesAcceptedAt(AnyNet(), s, 1)
  {
    hide HostTextOf, AnyNet;
    hide Sharing.GrantAccepted, Sharing.LocalBound, Sharing.AddressExclusive;
    RichGrantAccepted();
    RichLocalBound(s);
    BlankParsesToNothing();
    assert forall p | p in s.peers :: p == RichPeer();
    assert RichPeer() in s.peers;
    var g := RichGrant();
    assert Sharing.Local(s, g) == Sharing.Source(g) && Sharing.Remote(s, g) == Sharing.Recipient(g);
    assert forall prefix :: Sharing.AddressExclusive(AnyNet(), s, Sharing.Source(g), Sharing.Recipient(g), prefix) by { RichExclusive(s); }
    assert Sharing.GrantBound(AnyNet(), s, g);
    assert forall x | x in s.network.sharePeerGrants :: x == g;
  }

  lemma RichExclusive(s: Snapshot)
    requires s == RichMap()
    ensures forall prefix :: Sharing.AddressExclusive(AnyNet(), s, Sharing.Source(RichGrant()), Sharing.Recipient(RichGrant()), prefix)
  {
    hide HostTextOf, AnyNet, Overlaps;
    BlankParsesToNothing();
  }

  lemma RichIdentified()
    ensures MapSafety.WellIdentified(RichMap())
  {
    hide HostTextOf, TrimSpace;
    Texts();
    TrimSpaceIdempotent("x");
  }

  lemma RichFields(env: Env)
    requires env == SampleEnv(Signed)
    ensures MapSafety.FieldsAccepted(env.fields, RichMap()) && MapSafety.PortsAccepted(RichMap())
  {
    hide HostTextOf, AnyNet;
    assert RichPeer().allowedPorts == [];
  }

  lemma RichServices()
    ensures MapSafety.ServicesHosted(RichMap())
  {
    hide HostTextOf;
    var s := RichMap();
    assert RichPeer() in s.peers;
    assert forall p | p in s.peers :: p == RichPeer();
    assert "p"[0] != "d"[0];
  }

  /** A map with a sharing grant, access-control grants, an application and a service is accepted. */
  lemma RichMapIsAccepted(env: Env)
    requires env == SampleEnv(Signed)
    ensures MapAccepted(env, RichMap()) && Sharing.SharesAcceptedAt(env.net, RichMap(), 1)
  {
    hide RichPeer, RichApplication, RichService, RichGrant, AnyNet, MapAccepted;
    hide MapSafety.WellIdentified, MapSafety.FieldsAccepted, MapSafety.PortsAccepted, MapSafety.ServicesHosted;
    hide Applications.ApplicationScoped, Acl.AclAccepted, Sharing.SharesAccepted;
    var s := RichMap();
    RichIdentified();
    RichFields(env);
    RichServices();
    RichApplicationScoped(s);
    RichAcl();
    RichSharesAccepted(s);
    MapSafety.NothingElseIsAsked(env, s);
  }

  // ----- a removal without effect -----

  /** A peer with a space before its ID stays when that ID is removed. */
  lemma RemovedButPresent()
    ensures var p := SomePeer.(id := " p");
            Merged([p], [], [" p"], PeerId, TrimmedPeerId).Ok? && p in Merged([p], [], [" p"], PeerId, TrimmedPeerId).value
  {
    hide TrimSpace, Trimmed;
    var p := SomePeer.(id := " p");
    var none: seq<Peer> := [];
    Texts();
    assert TrimSpace(" p") == "p" by {
      TrimSpaceIdempotent("p");
      TrimOneSpace("p");
      assert " " + "p" == " p";
    }
    TrimSpaceIdempotent(" p");
    IdListAccepted(Map([" p"], TrimSpace));
    IdListAccepted(Map(none, TrimmedPeerId));
    UntrimmedStays([p], none, [" p"], PeerId, TrimmedPeerId, p);
  }

  // ----- a signature that is dead when it is made -----

  /** Signed one nanosecond after a full second for one nanosecond, a map never verifies. */
  lemma DeadWhenSigned() returns (env: Env, signer: Payload -> Option<string>)
    ensures Lawful(env) && SignsFor(env, Producer, signer) && env.crypto.decodeKey("key") == Some(Producer)
    ensures var s, at := MapOf(0, []), SECOND + 1;
            && Sharing.SharesAcceptedAt(env.net, s, at) && Sign(env, Producer, s, at, 1, signer).Some?
            && !VerifiedAt(env, s.(mapSignature := Sign(env, Producer, s, at, 1, signer)), "key", at)
  {
    hide TrimSpace, Trimmed, Canonical, VerifiedAt, LawfulNet, LawfulSorters, LawfulCrypto, LawfulRelays;
    env, signer := SampleEnv((_, _) => true), _ => Some("s");
    SampleEnvIsLawful((_, _) => true);
    Texts();
    assert KeyId(Producer) == "kk";
    assert Sharing.SharesAcceptedAt(env.net, MapOf(0, []), SECOND + 1);
    FreshSignatureVerifiesIff(env, Producer, "key", MapOf(0, []), SECOND + 1, 1, signer);
  }

  // ----- a release record that names no declared gate -----

  const SomeRules := Promotion.Rules(
    _ => true, _ => true, s => GateKey.NUL !in s, _ => true, _ => true, _ => true, _ => true, _ => true,
    (_, _) => true, _ => "", (_, _, _, _) => true, _ => "")

  const SomeReference := Promotion.DigestReference("", "")
  const DeclaredGate := GateKey.CompatibilityGate("a", "b", "c\0d", 1)
  const SomeCandidate := Promotion.ComponentCandidate(
    2, "candidate", "a", "", "", "", [], [], [DeclaredGate], SomeReference, Promotion.BuildProvenance("", "", "", ""), "")
  const Misread := Promotion.CompatibilityEvidence("a", "b\0c", "d", 1, SomeReference)
  const SomeReleased := Promotion.ReleasedComponent(
    2, "released", "a", "", "", "", SomeReference, SomeReference, [Misread],
    Promotion.PromotionProvenance("endless-net/releases", "", "a"))

  /** A record is accepted although its one entry names a consumer and a contract nobody declared. */
  lemma NulGoesUnnoticed()
    ensures Promotion.LawfulRules(SomeRules)
    ensures Promotion.ReleasedAccepted(SomeRules, SomeReleased, SomeCandidate, [])
    ensures !SamePermutation(Promotion.GatesOf(SomeReleased.evidence), SomeCandidate.gates)
  {
    hide GateKey.Itoa;
    assert Promotion.EvidenceKey(Misread) == GateKey.Key(DeclaredGate);
    var keys := Map(SomeCandidate.gates, GateKey.Key);
    assert keys == [GateKey.Key(DeclaredGate)] == Map(SomeReleased.evidence, Promotion.EvidenceKey);
    assert Promotion.GatesOf(SomeReleased.evidence)[0] == Promotion.GateOf(Misread);
    if SamePermutation(Promotion.GatesOf(SomeReleased.evidence), SomeCandidate.gates) {
      MembersOfPermutation(Promotion.GatesOf(SomeReleased.evidence), SomeCandidate.gates);
    }
  }

  // ----- an encoding of credential claims -----

  function EncodeClaims(c: NodeCredential.Claims): string {
    EncodeInt(c.version) + (EncodeText(c.keyId) + (EncodeText(c.algorithm) + (EncodeText(c.networkId) + (EncodeText(c.nodeId) +
    (EncodeTexts(c.scopes) + (EncodeInt(c.expiresAt) + EncodeText(c.signature)))))))
  }

  lemma ClaimsInjective(c: NodeCredential.Claims, d: NodeCredential.Claims)
    requires EncodeClaims(c) == EncodeClaims(d)
    ensures c == d
  {
    hide EncodeText, EncodeTexts, EncodeInt;
    var c7, d7 := EncodeText(c.signature), EncodeText(d.signature);
    var c6, d6 := EncodeInt(c.expiresAt) + c7, EncodeInt(d.expiresAt) + d7;
    var c5, d5 := EncodeTexts(c.scopes) + c6, EncodeTexts(d.scopes) + d6;
    var c4, d4 := EncodeText(c.nodeId) + c5, EncodeText(d.nodeId) + d5;
    var c3, d3 := EncodeText(c.networkId) + c4, EncodeText(d.networkId) + d4;
    var c2, d2 := EncodeText(c.algorithm) + c3, EncodeText(d.algorithm) + d3;
    var c1, d1 := EncodeText(c.keyId) + c2, EncodeText(d.keyId) + d2;
    IntPrefixFree(c.version, d.version, c1, d1);
    TextPrefixFree(c.keyId, d.keyId, c2, d2);
    TextPrefixFree(c.algorithm, d.algorithm, c3, d3);
    TextPrefixFree(c.networkId, d.networkId, c4, d4);
    TextPrefixFree(c.nodeId, d.nodeId, c5, d5);
    TextsPrefixFree(c.scopes, d.scopes, c6, d6);
    IntPrefixFree(c.expiresAt, d.expiresAt, c7, d7);
    assert c7 + "" == d7 + "";
    TextPrefixFree(c.signature, d.signature, "", "");
  }

  lemma {:induction false} EncodeTextEnds(s: string)
    ensures EncodeText(s) != "" && EncodeText(s)[|EncodeText(s)| - 1] == 'e'
  {
    if s != "" {
      EncodeTextEnds(s[1..]);
    }
  }

  lemma ClaimsTrimmed(c: NodeCredential.Claims)
    ensures Trimmed(NodeCredential.PREFIX + EncodeClaims(c))
  {
    hide EncodeText, EncodeTexts, EncodeInt;
    EncodeTextEnds(c.signature);
    var all := EncodeClaims(c);
    assert all[|all| - 1] == EncodeText(c.signature)[|EncodeText(c.signature)| - 1];
  }

  ghost function DecodeClaims(s: string): Option<NodeCredential.Claims> {
    if c: NodeCredential.Claims :| EncodeClaims(c) == s then Some(c) else None
  }

  lemma ClaimsRoundTrip(c: NodeCredential.Claims)
    ensures DecodeClaims(EncodeClaims(c)) == Some(c)
  {
    hide EncodeClaims;
    ClaimsInjective(c, DecodeClaims(EncodeClaims(c)).value);
  }

  /** The assumptions of the credential round trip hold together, with a credential that signs. */
  lemma CredentialAssumptionsAreMet()
    returns (c: NodeCredential.Codec, signer: NodeCredential.CredentialPayload -> Option<string>, credential: string)
    ensures NodeCredential.Lawful(c) && NodeCredential.SignsFor(c, [], signer) && c.decodeKey("key") == Some([])
    ensures NodeCredential.Sign(c, [], "n", "d", ["p"], 100, signer) == Some(credential)
    ensures NodeCredential.Validate(c, credential, "key", "p", 1).Some?
    ensures NodeCredential.Validate(c, credential, "key", "d", 1).None?
  {
    hide TrimSpace, Trimmed, EncodeClaims, DecodeClaims;
    hide NodeCredential.Validate, NodeCredential.CleanScopes;
    signer := _ => Some("s");
    c := NodeCredential.Codec(_ => Some([]), KeyId, _ => Some([]), (_, _, raw) => raw == [],
                              EncodeClaims, s => DecodeClaims(s), s => InsertionSort(s, TextKey));
    CodecIsLawful(c);
    Texts();
    TrimSpaceIdempotent(c.keyId([]));
    NodeCredential.CleanScopesMembers(c, ["p"]);
    assert "p" in ["p"] && "p" in NodeCredential.ScopeSet(["p"]);
    credential := NodeCredential.Sign(c, [], "n", "d", ["p"], 100, signer).value;
    NodeCredential.SignThenValidate(c, [], "key", "n", "d", ["p"], 100, signer, "p", 1);
    NodeCredential.SignThenValidate(c, [], "key", "n", "d", ["p"], 100, signer, "d", 1);
  }

  lemma CodecIsLawful(c: NodeCredential.Codec)
    requires c.keyId == KeyId && c.encode == EncodeClaims && c.decode == (s => DecodeClaims(s))
    requires c.sortStrings == (s => InsertionSort(s, TextKey))
    ensures NodeCredential.Lawful(c)
  {
    hide EncodeClaims, DecodeClaims, InsertionSort;
    forall claims
      ensures c.decode(c.encode(claims)) == Some(claims) && Trimmed(NodeCredential.PREFIX + c.encode(claims))
    {
      ClaimsRoundTrip(claims);
      ClaimsTrimmed(claims);
    }
    forall s
      ensures SamePermutation(c.sortStrings(s), s) && SortedBy(c.sortStrings(s), TextKey)
    {
      InsertionSortSorts(s, TextKey);
    }
  }
}
