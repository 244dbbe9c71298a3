/** Where each item of on-chain state lives in the Merkle tree: all keys of all
    namespaces are different, so the tree behaves as a family of separate maps,
    and its root commits to the ledger. */
module StateKeys {
  import opened Primitives
  import opened Hashing
  import opened Trie
  import State
  import Governance

  const NS_ACCOUNTS: Byte := 0
  const NS_VALIDATORS: Byte := 1
  const NS_GOVERNANCE: Byte := 3

  datatype StateKey =
    | AccountKey(addr: Address)
    | ValidatorKey(addr: Address)
    | ProposalKey(id: nat)
    | VoteKey(id: nat, voter: Address)
    | ParamKey(param: Governance.Param)
    | ActiveCountKey
    | ProposerCountKey(addr: Address)

  /** Addresses and identifiers are 32 bytes. */
  predicate Fits(k: StateKey) {
    match k
    case AccountKey(a) => a < Pow2(256)
    case ValidatorKey(a) => a < Pow2(256)
    case ProposalKey(id) => id < Pow2(256)
    case VoteKey(id, v) => id < Pow2(256) && v < Pow2(256)
    case ProposerCountKey(a) => a < Pow2(256)
    case _ => true
  }

  function ToBigEndian(x: nat, n: nat): (s: Bytes)
    ensures |s| == n
  {
    if n == 0 then [] else ToBigEndian(x / 256, n - 1) + [x % 256]
  }

  lemma {:induction false} BigEndianRoundTrip(x: nat, n: nat)
    requires x < Pow2(8 * n)
    ensures FromBigEndian(ToBigEndian(x, n)) == x
  {
    if n > 0 {
      Pow2Step8(8 * (n - 1));
      assert 8 * n == 8 * (n - 1) + 8;
      BigEndianRoundTrip(x / 256, n - 1);
      assert ToBigEndian(x, n)[..n - 1] == ToBigEndian(x / 256, n - 1);
    }
  }

  lemma Bytes32Injective(x: nat, y: nat)
    requires x < Pow2(256) && y < Pow2(256) && ToBigEndian(x, 32) == ToBigEndian(y, 32)
    ensures x == y
  {
    BigEndianRoundTrip(x, 32);
    BigEndianRoundTrip(y, 32);
  }

  // ---------------------------------------------------------------------
  // Textual sub-keys
  // ---------------------------------------------------------------------

  /** The lower-case hexadecimal digit of a half byte, in ASCII. */
  function HexDigit(n: nat): Byte
    requires n < 16
  {
    if n < 10 then 48 + n else 87 + n
  }

  /** Two digits per byte, high half first. */
  function Hex(s: Bytes): (t: Bytes)
    ensures |t| == 2 * |s|
  {
    if s == [] then []
    else
      var last := s[|s| - 1];
      Hex(s[..|s| - 1]) + [HexDigit(last / 16), HexDigit(last % 16)]
  }

  lemma ByteFromDigits(x: Byte, y: Byte)
    requires HexDigit(x / 16) == HexDigit(y / 16) && HexDigit(x % 16) == HexDigit(y % 16)
    ensures x == y
  {
    assert x == 16 * (x / 16) + x % 16 && y == 16 * (y / 16) + y % 16;
  }

  lemma HexParts(s: Bytes, n: nat)
    requires |s| == n + 1
    ensures Hex(s)[..2 * n] == Hex(s[..n])
    ensures Hex(s)[2 * n] == HexDigit(s[n] / 16) && Hex(s)[2 * n + 1] == HexDigit(s[n] % 16)
  {
  }

  lemma {:induction false} HexInjective(s: Bytes, t: Bytes)
    requires |s| == |t| && Hex(s) == Hex(t)
    ensures s == t
  {
    if s != [] {
      var n := |s| - 1;
      HexParts(s, n);
      HexParts(t, n);
      HexInjective(s[..n], t[..n]);
      ByteFromDigits(s[n], t[n]);
      assert s == s[..n] + [s[n]] && t == t[..n] + [t[n]];
    }
  }

  /** The bytes of an ASCII text. */
  function Ascii(s: string): (t: Bytes)
    ensures |t| == |s|
  {
    seq(|s|, i requires 0 <= i < |s| => s[i] as int % 256)
  }

  function ParamName(param: Governance.Param): string {
    match param
    case MaxValidators => "MaxValidators"
    case EraLength => "EraLength"
    case BlockSizeCapBytes => "BlockSizeCapBytes"
    case BlockTxCap => "BlockTxCap"
    case FlatFee => "FlatFee"
    case PerByteRate => "PerByteRate"
    case AntiSpamDeposit => "AntiSpamDeposit"
    case MissedSlotPenalty => "MissedSlotPenalty"
    case SupplyCeilingRate => "SupplyCeilingRate"
    case SupplyHeadroomRate => "SupplyHeadroomRate"
  }

  lemma ParamNameInjective(p: Governance.Param, q: Governance.Param)
    requires Ascii(ParamName(p)) == Ascii(ParamName(q))
    ensures p == q
  {
    assert |ParamName(p)| == |Ascii(ParamName(p))| == |ParamName(q)|;
    assert Ascii(ParamName(p))[0] == Ascii(ParamName(q))[0];
  }

  function HexOf(x: nat): Bytes {
    Hex(ToBigEndian(x, 32))
  }

  lemma HexOfInjective(x: nat, y: nat)
    requires x < Pow2(256) && y < Pow2(256) && HexOf(x) == HexOf(y)
    ensures x == y
  {
    HexInjective(ToBigEndian(x, 32), ToBigEndian(y, 32));
    Bytes32Injective(x, y);
  }

  /** The sub-key of a governance item. */
  function SubKey(k: StateKey): Bytes
    requires !k.AccountKey? && !k.ValidatorKey?
  {
    match k
    case ProposalKey(id) => Ascii("prop_") + HexOf(id)
    case VoteKey(id, voter) => Ascii("vote_") + HexOf(id) + Ascii("_") + HexOf(voter)
    case ParamKey(param) => Ascii("gov_param_") + Ascii(ParamName(param))
    case ActiveCountKey => Ascii("gov_active_count")
    case ProposerCountKey(addr) => Ascii("gov_proposer_count_") + HexOf(addr)
  }

  lemma ParamNameLength(param: Governance.Param)
    ensures 7 <= |ParamName(param)| <= 18
  {
  }

  /** The families of sub-keys differ already in the length of their texts. */
  lemma SubKeyLength(k: StateKey)
    requires !k.AccountKey? && !k.ValidatorKey?
    ensures match k
            case ProposalKey(_) => |SubKey(k)| == 69
            case VoteKey(_, _) => |SubKey(k)| == 134
            case ParamKey(_) => 17 <= |SubKey(k)| <= 28
            case ActiveCountKey => |SubKey(k)| == 16
            case _ => |SubKey(k)| == 83
  {
    if k.ParamKey? {
      ParamNameLength(k.param);
    }
  }

  lemma SubKeyInjective(j: StateKey, k: StateKey)
    requires Fits(j) && Fits(k)
    requires !j.AccountKey? && !j.ValidatorKey? && !k.AccountKey? && !k.ValidatorKey?
    requires SubKey(j) == SubKey(k)
    ensures j == k
  {
    SubKeyLength(j);
    SubKeyLength(k);
    match j {
      case ProposalKey(id) =>
        assert SubKey(j)[5..] == HexOf(id) && SubKey(k)[5..] == HexOf(k.id);
        HexOfInjective(id, k.id);
      case VoteKey(id, voter) => VoteKeyInjective(id, voter, k.id, k.voter);
      case ParamKey(param) =>
        assert SubKey(j)[10..] == Ascii(ParamName(param)) && SubKey(k)[10..] == Ascii(ParamName(k.param));
        ParamNameInjective(param, k.param);
      case ProposerCountKey(addr) =>
        assert SubKey(j)[19..] == HexOf(addr) && SubKey(k)[19..] == HexOf(k.addr);
        HexOfInjective(addr, k.addr);
      case ActiveCountKey =>
    }
  }

  /** The parts of the sub-key of a vote. */
  lemma TextParts(s: Bytes, a: Bytes, b: Bytes, c: Bytes, d: Bytes)
    requires s == a + b + c + d && |a| == 5 && |b| == 64 && |c| == 1 && |d| == 64
    ensures |s| == 134 && s[..5] == a && s[5..69] == b && s[69..70] == c && s[70..] == d
  {
  }

  lemma VoteKeyInjective(id: nat, voter: Address, id': nat, voter': Address)
    requires Fits(VoteKey(id, voter)) && Fits(VoteKey(id', voter'))
    requires SubKey(VoteKey(id, voter)) == SubKey(VoteKey(id', voter'))
    ensures id == id' && voter == voter'
  {
    TextParts(SubKey(VoteKey(id, voter)), Ascii("vote_"), HexOf(id), Ascii("_"), HexOf(voter));
    TextParts(SubKey(VoteKey(id', voter')), Ascii("vote_"), HexOf(id'), Ascii("_"), HexOf(voter'));
    HexOfInjective(id, id');
    HexOfInjective(voter, voter');
  }

  // ---------------------------------------------------------------------
  // Full keys
  // ---------------------------------------------------------------------

  function NamespaceKey(ns: Byte, key: Bytes): Bytes {
    [ns] + key
  }

  function FullKey(k: StateKey): Bytes {
    match k
    case AccountKey(a) => NamespaceKey(NS_ACCOUNTS, ToBigEndian(a, 32))
    case ValidatorKey(a) => NamespaceKey(NS_VALIDATORS, ToBigEndian(a, 32))
    case _ => NamespaceKey(NS_GOVERNANCE, SubKey(k))
  }

  /** No two items of state share a key. */
  lemma FullKeyInjective(j: StateKey, k: StateKey)
    requires Fits(j) && Fits(k) && FullKey(j) == FullKey(k)
    ensures j == k
  {
    assert FullKey(j)[0] == FullKey(k)[0];
    assert FullKey(j)[1..] == FullKey(k)[1..];
    match j {
      case AccountKey(a) =>
        assert FullKey(j)[1..] == ToBigEndian(a, 32) && FullKey(k)[1..] == ToBigEndian(k.addr, 32);
        Bytes32Injective(a, k.addr);
      case ValidatorKey(a) =>
        assert FullKey(j)[1..] == ToBigEndian(a, 32) && FullKey(k)[1..] == ToBigEndian(k.addr, 32);
        Bytes32Injective(a, k.addr);
      case _ =>
        assert FullKey(j)[1..] == SubKey(j) && FullKey(k)[1..] == SubKey(k);
        SubKeyInjective(j, k);
    }
  }

  // ---------------------------------------------------------------------
  // The bytes of a key
  // ---------------------------------------------------------------------

  /** The value of a lower-case hexadecimal digit, 16 for any other byte. */
  function DigitValue(c: Byte): nat {
    if '0' as int <= c <= '9' as int then c - '0' as int
    else if 'a' as int <= c <= 'f' as int then c - 'a' as int + 10
    else 16
  }

  /** A text of lower-case hexadecimal digits read as a number, first digit highest. */
  function ReadHex(t: Bytes): Option<nat> {
    if t == [] then Some(0)
    else
      var n := |t| - 1;
      var front := ReadHex(t[..n]);
      if front.Some? && DigitValue(t[n]) < 16 then Some(16 * front.value + DigitValue(t[n])) else None
  }

  /** The bytes spell the text. */
  ghost predicate Spells(s: Bytes, text: string) {
    |s| == |text| && forall i :: 0 <= i < |s| ==> s[i] as char == text[i]
  }

  /** The full key byte by byte: the namespace, then 32 bytes of a big-endian number
      or a text with 64 digits to a number. */
  ghost predicate Layout(k: StateKey, s: Bytes) {
    match k
    case AccountKey(a) => |s| == 33 && s[0] == 0 && FromBigEndian(s[1..]) == a
    case ValidatorKey(a) => |s| == 33 && s[0] == 1 && FromBigEndian(s[1..]) == a
    case ProposalKey(id) => |s| == 70 && s[0] == 3 && Spells(s[1..6], "prop_") && ReadHex(s[6..]) == Some(id)
    case VoteKey(id, voter) =>
      && |s| == 135 && s[0] == 3 && Spells(s[1..6], "vote_") && ReadHex(s[6..70]) == Some(id)
      && Spells(s[70..71], "_") && ReadHex(s[71..]) == Some(voter)
    case ParamKey(param) => |s| > 0 && s[0] == 3 && Spells(s[1..], "gov_param_" + ParamName(param))
    case ActiveCountKey => |s| > 0 && s[0] == 3 && Spells(s[1..], "gov_active_count")
    case ProposerCountKey(a) =>
      |s| == 84 && s[0] == 3 && Spells(s[1..20], "gov_proposer_count_") && ReadHex(s[20..]) == Some(a)
  }

  lemma ReadTwoDigits(t: Bytes, n: nat, front: nat)
    requires |t| == 2 * n + 2 && ReadHex(t[..2 * n]) == Some(front)
    requires DigitValue(t[2 * n]) < 16 && DigitValue(t[2 * n + 1]) < 16
    ensures ReadHex(t) == Some(16 * (16 * front + DigitValue(t[2 * n])) + DigitValue(t[2 * n + 1]))
  {
    hide DigitValue;
    assert t[..2 * n + 1][..2 * n] == t[..2 * n];
    assert ReadHex(t[..2 * n + 1]) == Some(16 * front + DigitValue(t[2 * n]));
  }

  lemma DigitReads(n: nat)
    requires n < 16
    ensures DigitValue(HexDigit(n)) == n
  {
  }

  lemma {:induction false} HexReads(s: Bytes)
    ensures ReadHex(Hex(s)) == Some(FromBigEndian(s))
  {
    if s != [] {
      hide ReadHex;
      hide DigitValue;
      hide HexDigit;
      var n := |s| - 1;
      var last := s[n];
      HexReads(s[..n]);
      HexParts(s, n);
      DigitReads(last / 16);
      DigitReads(last % 16);
      ReadTwoDigits(Hex(s), n, FromBigEndian(s[..n]));
    }
  }

  lemma HexOfReads(x: nat)
    requires x < Pow2(256)
    ensures ReadHex(HexOf(x)) == Some(x)
  {
    HexReads(ToBigEndian(x, 32));
    BigEndianRoundTrip(x, 32);
  }

  lemma AsciiSpells(text: string)
    requires forall i :: 0 <= i < |text| ==> text[i] as int < 256
    ensures Spells(Ascii(text), text)
  {
  }

  lemma SpellsBoth(s: Bytes, a: string, t: Bytes, b: string)
    requires Spells(s, a) && Spells(t, b)
    ensures Spells(s + t, a + b)
  {
  }

  lemma ParamSpells(param: Governance.Param)
    ensures Spells(Ascii("gov_param_") + Ascii(ParamName(param)), "gov_param_" + ParamName(param))
  {
    AsciiSpells("gov_param_");
    AsciiSpells(ParamName(param));
    SpellsBoth(Ascii("gov_param_"), "gov_param_", Ascii(ParamName(param)), ParamName(param));
  }

  /** Every key has this layout. */
  lemma KeyLayout(k: StateKey)
    requires Fits(k)
    ensures Layout(k, FullKey(k))
  {
    hide ReadHex;
    hide HexOf;
    hide Spells;
    hide ParamName;
    hide FromBigEndian;
    hide Pow2;
    var s := FullKey(k);
    match k {
      case AccountKey(a) => NumberKey(a, NS_ACCOUNTS);
      case ValidatorKey(a) => NumberKey(a, NS_VALIDATORS);
      case ProposalKey(id) => TextLayout(s, "prop_", id);
      case VoteKey(id, voter) => VoteLayout(id, voter);
      case ParamKey(param) =>
        ParamSpells(param);
        assert s[1..] == Ascii("gov_param_") + Ascii(ParamName(param));
      case ActiveCountKey =>
        AsciiSpells("gov_active_count");
        assert s[1..] == Ascii("gov_active_count");
      case ProposerCountKey(a) => TextLayout(s, "gov_proposer_count_", a);
    }
  }

  /** A text followed by the digits of a number. */
  lemma TextLayout(s: Bytes, text: string, x: nat)
    requires x < Pow2(256) && s == [NS_GOVERNANCE] + (Ascii(text) + HexOf(x))
    requires forall i :: 0 <= i < |text| ==> text[i] as int < 256
    ensures |s| == 65 + |text| && s[0] == 3
    ensures Spells(s[1..1 + |text|], text) && ReadHex(s[1 + |text|..]) == Some(x)
  {
    hide ReadHex;
    hide Spells;
    AsciiSpells(text);
    HexOfReads(x);
    assert |HexOf(x)| == 64;
    hide HexOf;
    hide Ascii;
    assert s[1..1 + |text|] == Ascii(text);
    assert s[1 + |text|..] == HexOf(x);
  }

  lemma NumberKey(a: Address, ns: Byte)
    requires a < Pow2(256)
    ensures var s := NamespaceKey(ns, ToBigEndian(a, 32)); |s| == 33 && s[0] == ns && FromBigEndian(s[1..]) == a
  {
    BigEndianRoundTrip(a, 32);
    assert NamespaceKey(ns, ToBigEndian(a, 32))[1..] == ToBigEndian(a, 32);
  }

  lemma Shifted(s: Bytes)
    requires |s| == 135
    ensures s[1..][..5] == s[1..6] && s[1..][5..69] == s[6..70]
    ensures s[1..][69..70] == s[70..71] && s[1..][70..] == s[71..]
  {
  }

  lemma VoteLayout(id: nat, voter: Address)
    requires Fits(VoteKey(id, voter))
    ensures Layout(VoteKey(id, voter), FullKey(VoteKey(id, voter)))
  {
    var s := FullKey(VoteKey(id, voter));
    assert s[1..] == SubKey(VoteKey(id, voter));
    TextParts(s[1..], Ascii("vote_"), HexOf(id), Ascii("_"), HexOf(voter));
    Shifted(s);
    HexOfReads(id);
    HexOfReads(voter);
    AsciiSpells("vote_");
    AsciiSpells("_");
  }

  // ---------------------------------------------------------------------
  // The tree as a family of maps
  // ---------------------------------------------------------------------

  /** What the tree returns for an item of state. */
  function Stored(h: Hash, leaves: map<Digest, Bytes>, k: StateKey): Option<Bytes> {
    Lookup(leaves, h(FullKey(k)))
  }

  /** Writing one item is seen by that item and by no other, unless the hash of
      the two keys is the same. */
  lemma WriteIsLocal(h: Hash, leaves: map<Digest, Bytes>, k: StateKey, value: Bytes, other: StateKey)
    requires Fits(k) && Fits(other)
    ensures Stored(h, leaves[h(FullKey(k)) := value], k) == Some(value)
    ensures k == other || Collides(h, FullKey(k), FullKey(other))
            || Stored(h, leaves[h(FullKey(k)) := value], other) == Stored(h, leaves, other)
  {
    if k != other && FullKey(k) == FullKey(other) {
      FullKeyInjective(k, other);
    }
  }

  type Items = map<StateKey, Bytes>

  /** Finitely many keys, all of 32-byte addresses and no two with the same hash. */
  ghost predicate Separated(h: Hash, keys: set<StateKey>) {
    && (forall k :: k in keys ==> Fits(k))
    && (forall j, k :: j in keys && k in keys ==> !Collides(h, FullKey(j), FullKey(k)))
  }

  /** The leaves are exactly these encoded items. */
  ghost predicate Holds(h: Hash, leaves: map<Digest, Bytes>, items: Items) {
    && (forall k :: k in items ==> Stored(h, leaves, k) == Some(items[k]))
    && (forall d :: d in leaves ==> HashOfKey(h, items.Keys, d))
  }

  ghost predicate HashOfKey(h: Hash, keys: set<StateKey>, d: Digest) {
    exists k :: k in keys && h(FullKey(k)) == d
  }

  lemma SeparatedHashes(h: Hash, keys: set<StateKey>, j: StateKey, k: StateKey)
    requires Separated(h, keys) && j in keys && k in keys && h(FullKey(j)) == h(FullKey(k))
    ensures j == k
  {
    assert !Collides(h, FullKey(j), FullKey(k));
    FullKeyInjective(j, k);
  }

  lemma SeparatedPart(h: Hash, keys: set<StateKey>, part: set<StateKey>)
    requires part <= keys
    ensures Separated(h, keys) ==> Separated(h, part)
  {
  }

  /** Reading an item from the tree is reading the map of items. */
  lemma ReadRefines(h: Hash, leaves: map<Digest, Bytes>, items: Items, k: StateKey)
    requires Holds(h, leaves, items)
    ensures Separated(h, items.Keys + {k}) ==>
              Stored(h, leaves, k) == if k in items then Some(items[k]) else None
  {
    if Separated(h, items.Keys + {k}) && h(FullKey(k)) in leaves {
      assert HashOfKey(h, items.Keys, h(FullKey(k)));
      var j :| j in items.Keys && h(FullKey(j)) == h(FullKey(k));
      SeparatedHashes(h, items.Keys + {k}, j, k);
    }
  }

  /** Writing an item to the tree is writing the map of items. */
  lemma WriteRefines(h: Hash, leaves: map<Digest, Bytes>, items: Items, k: StateKey, value: Bytes)
    requires Holds(h, leaves, items)
    ensures Separated(h, items.Keys + {k}) ==> Holds(h, leaves[h(FullKey(k)) := value], items[k := value])
  {
    if Separated(h, items.Keys + {k}) {
      var next, written := leaves[h(FullKey(k)) := value], items[k := value];
      forall j | j in written ensures Stored(h, next, j) == Some(written[j]) {
        if j != k {
          assert Stored(h, leaves, j) == Some(items[j]);
          if h(FullKey(j)) == h(FullKey(k)) {
            SeparatedHashes(h, items.Keys + {k}, j, k);
          }
        }
      }
      forall d | d in next ensures HashOfKey(h, written.Keys, d) {
        if d in leaves {
          assert HashOfKey(h, items.Keys, d);
          var j :| j in items.Keys && h(FullKey(j)) == d;
          assert j in written.Keys;
        } else {
          assert k in written.Keys;
        }
      }
    }
  }

  /** The items determine the leaves, whatever order they were written in. */
  lemma ItemsDetermineLeaves(h: Hash, a: map<Digest, Bytes>, b: map<Digest, Bytes>, items: Items)
    requires Holds(h, a, items) && Holds(h, b, items)
    ensures a == b
  {
    forall d: Digest ensures Lookup(a, d) == Lookup(b, d) {
      if HashOfKey(h, items.Keys, d) {
        var k :| k in items.Keys && h(FullKey(k)) == d;
        assert Stored(h, a, k) == Some(items[k]) && Stored(h, b, k) == Some(items[k]);
      }
    }
    SameLookups(a, b);
  }

  /** Separated keys make the leaves determine the items too. */
  lemma LeavesDetermineItems(h: Hash, leaves: map<Digest, Bytes>, items: Items, items': Items)
    requires Holds(h, leaves, items) && Holds(h, leaves, items')
    requires Separated(h, items.Keys + items'.Keys)
    ensures items == items'
  {
    hide Holds;
    hide Separated;
    assert items'.Keys + items.Keys == items.Keys + items'.Keys;
    HeldItems(h, leaves, items, items');
    HeldItems(h, leaves, items', items);
  }

  lemma HeldItems(h: Hash, leaves: map<Digest, Bytes>, items: Items, items': Items)
    requires Holds(h, leaves, items) && Holds(h, leaves, items')
    requires Separated(h, items.Keys + items'.Keys)
    ensures forall k :: k in items ==> k in items' && items'[k] == items[k]
  {
    forall k | k in items ensures k in items' && items'[k] == items[k] {
      assert Stored(h, leaves, k) == Some(items[k]);
      SeparatedPart(h, items.Keys + items'.Keys, items'.Keys + {k});
      ReadRefines(h, leaves, items', k);
    }
  }

  /** The state root commits to the items: equal items give equal roots, and equal
      roots mean equal items, unless two of the keys have the same hash or the hash
      fails on a node or a value of the two trees. */
  lemma StateRootCommits(h: Hash, leaves: map<Digest, Bytes>, items: Items, leaves': map<Digest, Bytes>, items': Items)
    requires Holds(h, leaves, items) && Holds(h, leaves', items')
    ensures items == items' ==> MerkleRoot(h, leaves) == MerkleRoot(h, leaves')
    ensures MerkleRoot(h, leaves) == MerkleRoot(h, leaves') ==>
              items == items' || !Separated(h, items.Keys + items'.Keys) || Broken(h, leaves, leaves')
  {
    if items == items' {
      ItemsDetermineLeaves(h, leaves, leaves', items);
    }
    RootBinding(h, leaves, leaves');
    if leaves == leaves' && Separated(h, items.Keys + items'.Keys) {
      LeavesDetermineItems(h, leaves, items, items');
    }
  }

  // ---------------------------------------------------------------------
  // The ledger as items
  // ---------------------------------------------------------------------

  /** Encoders for the two entities of the ledger; decoding inverts them, so they are injective. */
  datatype Codec = Codec(account: State.Account -> Bytes, validator: State.Validator -> Bytes)

  ghost predicate Decodable(c: Codec) {
    && (forall x, y :: c.account(x) == c.account(y) ==> x == y)
    && (forall x, y :: c.validator(x) == c.validator(y) ==> x == y)
  }

  /** Items outside the two namespaces of the ledger. */
  ghost predicate OtherNamespaces(rest: Items) {
    forall k :: k in rest ==> !k.AccountKey? && !k.ValidatorKey?
  }

  function ItemIn(items: Items, k: StateKey): Option<Bytes> {
    if k in items then Some(items[k]) else None
  }

  /** The item of a key, read off the ledger. */
  function ItemOf(c: Codec, accounts: map<Address, State.Account>, validators: map<Address, State.Validator>,
                  rest: Items, k: StateKey): Option<Bytes> {
    match k
    case AccountKey(a) => if a in accounts then Some(c.account(accounts[a])) else None
    case ValidatorKey(a) => if a in validators then Some(c.validator(validators[a])) else None
    case _ => ItemIn(rest, k)
  }

  /** `items` are the accounts, the validators and whatever else the tree stores. */
  ghost predicate IsLedger(c: Codec, accounts: map<Address, State.Account>,
                           validators: map<Address, State.Validator>, rest: Items, items: Items) {
    forall k: StateKey :: ItemIn(items, k) == ItemOf(c, accounts, validators, rest, k)
  }

  function AccountOf(c: Codec, accounts: map<Address, State.Account>, k: StateKey): Option<Bytes> {
    if k.AccountKey? && k.addr in accounts then Some(c.account(accounts[k.addr])) else None
  }

  function ValidatorOf(c: Codec, validators: map<Address, State.Validator>, k: StateKey): Option<Bytes> {
    if k.ValidatorKey? && k.addr in validators then Some(c.validator(validators[k.addr])) else None
  }

  lemma AccountItems(c: Codec, accounts: map<Address, State.Account>) returns (items: Items)
    ensures forall k: StateKey :: ItemIn(items, k) == AccountOf(c, accounts, k)
  {
    items := map a | a in accounts :: AccountKey(a) := c.account(accounts[a]);
  }

  lemma ValidatorItems(c: Codec, validators: map<Address, State.Validator>) returns (items: Items)
    ensures forall k: StateKey :: ItemIn(items, k) == ValidatorOf(c, validators, k)
  {
    items := map a | a in validators :: ValidatorKey(a) := c.validator(validators[a]);
  }

  lemma ItemInSum(a: Items, b: Items, k: StateKey)
    ensures ItemIn(a + b, k) == if ItemIn(b, k).Some? then ItemIn(b, k) else ItemIn(a, k)
  {
  }

  lemma LedgerExists(c: Codec, accounts: map<Address, State.Account>,
                     validators: map<Address, State.Validator>, rest: Items)
    requires OtherNamespaces(rest)
    ensures exists items :: IsLedger(c, accounts, validators, rest, items)
  {
    var accountItems := AccountItems(c, accounts);
    var validatorItems := ValidatorItems(c, validators);
    var items := rest + accountItems + validatorItems;
    forall k: StateKey ensures ItemIn(items, k) == ItemOf(c, accounts, validators, rest, k) {
      ItemInSum(rest + accountItems, validatorItems, k);
      ItemInSum(rest, accountItems, k);
      assert ItemIn(accountItems, k) == AccountOf(c, accounts, k);
      assert ItemIn(validatorItems, k) == ValidatorOf(c, validators, k);
    }
    assert IsLedger(c, accounts, validators, rest, items);
  }

  ghost function LedgerItems(c: Codec, accounts: map<Address, State.Account>,
                             validators: map<Address, State.Validator>, rest: Items): (items: Items)
    requires OtherNamespaces(rest)
    ensures IsLedger(c, accounts, validators, rest, items)
  {
    LedgerExists(c, accounts, validators, rest);
    var items :| IsLedger(c, accounts, validators, rest, items);
    items
  }

  lemma SameItems(a: Items, b: Items)
    requires forall k: StateKey :: ItemIn(a, k) == ItemIn(b, k)
    ensures a == b
  {
    forall k: StateKey ensures (k in a <==> k in b) && (k in a ==> a[k] == b[k]) {
      assert ItemIn(a, k) == ItemIn(b, k);
    }
  }

  /** Writing an account writes its item. */
  lemma AccountItem(c: Codec, accounts: map<Address, State.Account>, validators: map<Address, State.Validator>,
                    rest: Items, a: Address, acct: State.Account)
    requires OtherNamespaces(rest)
    ensures LedgerItems(c, accounts[a := acct], validators, rest)
            == LedgerItems(c, accounts, validators, rest)[AccountKey(a) := c.account(acct)]
  {
    var before := LedgerItems(c, accounts, validators, rest);
    var next := LedgerItems(c, accounts[a := acct], validators, rest);
    forall k: StateKey ensures ItemIn(next, k) == ItemIn(before[AccountKey(a) := c.account(acct)], k) {
      assert ItemIn(before, k) == ItemOf(c, accounts, validators, rest, k);
      assert ItemIn(next, k) == ItemOf(c, accounts[a := acct], validators, rest, k);
    }
    SameItems(next, before[AccountKey(a) := c.account(acct)]);
  }

  /** Writing a validator entry writes its item. */
  lemma ValidatorItem(c: Codec, accounts: map<Address, State.Account>, validators: map<Address, State.Validator>,
                      rest: Items, a: Address, entry: State.Validator)
    requires OtherNamespaces(rest)
    ensures LedgerItems(c, accounts, validators[a := entry], rest)
            == LedgerItems(c, accounts, validators, rest)[ValidatorKey(a) := c.validator(entry)]
  {
    var before := LedgerItems(c, accounts, validators, rest);
    var next := LedgerItems(c, accounts, validators[a := entry], rest);
    forall k: StateKey ensures ItemIn(next, k) == ItemIn(before[ValidatorKey(a) := c.validator(entry)], k) {
      assert ItemIn(before, k) == ItemOf(c, accounts, validators, rest, k);
      assert ItemIn(next, k) == ItemOf(c, accounts, validators[a := entry], rest, k);
    }
    SameItems(next, before[ValidatorKey(a) := c.validator(entry)]);
  }

  /** Writing an item of another namespace writes that item. */
  lemma OtherItem(c: Codec, accounts: map<Address, State.Account>, validators: map<Address, State.Validator>,
                  rest: Items, k: StateKey, value: Bytes)
    requires OtherNamespaces(rest) && !k.AccountKey? && !k.ValidatorKey?
    ensures LedgerItems(c, accounts, validators, rest[k := value])
            == LedgerItems(c, accounts, validators, rest)[k := value]
  {
    var before := LedgerItems(c, accounts, validators, rest);
    var next := LedgerItems(c, accounts, validators, rest[k := value]);
    forall j: StateKey ensures ItemIn(next, j) == ItemIn(before[k := value], j) {
      assert ItemIn(before, j) == ItemOf(c, accounts, validators, rest, j);
      assert ItemIn(next, j) == ItemOf(c, accounts, validators, rest[k := value], j);
    }
    SameItems(next, before[k := value]);
  }

  /** Equal items are equal ledgers. */
  lemma ItemsDetermineLedger(c: Codec, accounts: map<Address, State.Account>, validators: map<Address, State.Validator>,
                             rest: Items, accounts': map<Address, State.Account>,
                             validators': map<Address, State.Validator>, rest': Items)
    requires Decodable(c) && OtherNamespaces(rest) && OtherNamespaces(rest')
    requires LedgerItems(c, accounts, validators, rest) == LedgerItems(c, accounts', validators', rest')
    ensures accounts == accounts' && validators == validators' && rest == rest'
  {
    forall k: StateKey ensures ItemOf(c, accounts, validators, rest, k) == ItemOf(c, accounts', validators', rest', k) {
      assert ItemIn(LedgerItems(c, accounts, validators, rest), k) == ItemOf(c, accounts, validators, rest, k);
    }
    forall a: Address ensures (a in accounts <==> a in accounts') && (a in accounts ==> accounts[a] == accounts'[a]) {
      assert ItemOf(c, accounts, validators, rest, AccountKey(a))
          == ItemOf(c, accounts', validators', rest', AccountKey(a));
    }
    forall a: Address ensures (a in validators <==> a in validators')
                              && (a in validators ==> validators[a] == validators'[a]) {
      assert ItemOf(c, accounts, validators, rest, ValidatorKey(a))
          == ItemOf(c, accounts', validators', rest', ValidatorKey(a));
    }
    forall k: StateKey ensures ItemIn(rest, k) == ItemIn(rest', k) {
      assert ItemOf(c, accounts, validators, rest, k) == ItemOf(c, accounts', validators', rest', k);
    }
    SameItems(rest, rest');
  }

  /** The state root commits to the ledger: as long as no two keys have the same
      hash, and unless the hash fails on a node or a value of the two trees, two
      trees have the same root exactly when they store the same accounts, the same
      validators and the same other items. */
  lemma LedgerRootCommits(h: Hash, c: Codec, leaves: map<Digest, Bytes>, accounts: map<Address, State.Account>,
                          validators: map<Address, State.Validator>, rest: Items,
                          leaves': map<Digest, Bytes>, accounts': map<Address, State.Account>,
                          validators': map<Address, State.Validator>, rest': Items)
    requires Decodable(c) && OtherNamespaces(rest) && OtherNamespaces(rest')
    requires Holds(h, leaves, LedgerItems(c, accounts, validators, rest))
    requires Holds(h, leaves', LedgerItems(c, accounts', validators', rest'))
    ensures accounts == accounts' && validators == validators' && rest == rest' ==>
              MerkleRoot(h, leaves) == MerkleRoot(h, leaves')
    ensures MerkleRoot(h, leaves) == MerkleRoot(h, leaves') ==>
              || (accounts == accounts' && validators == validators' && rest == rest')
              || !Separated(h, LedgerItems(c, accounts, validators, rest).Keys
                               + LedgerItems(c, accounts', validators', rest').Keys)
              || Broken(h, leaves, leaves')
  {
    hide Holds;
    hide Separated;
    hide Broken;
    hide MerkleRoot;
    var items, items' := LedgerItems(c, accounts, validators, rest), LedgerItems(c, accounts', validators', rest');
    StateRootCommits(h, leaves, items, leaves', items');
    if items == items' {
      ItemsDetermineLedger(c, accounts, validators, rest, accounts', validators', rest');
    }
  }
}
