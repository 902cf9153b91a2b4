/** MVCC keys: [user key][0x00][8-byte big-endian transaction ID] (txn.go). */
module MvccKeys {
  import opened Bytes

  const MAX_TXID: nat := 0xFFFF_FFFF_FFFF_FFFF

  type TxnId = t: nat | t <= MAX_TXID

  function BuildMvccKey(user: Bytes, tx: TxnId): Bytes {
    user + [0] + BigEndian(tx, 8)
  }

  /** Keys that are too short or lack the separator belong to transaction 0. */
  function ExtractMvccKey(key: Bytes): (Bytes, nat) {
    if |key| < 9 || key[|key| - 9] != 0 then (key, 0)
    else (key[..|key| - 9], FromBigEndian(key[|key| - 8..]))
  }

  /** The transaction a stored key belongs to. */
  function Owner(key: Bytes): nat {
    ExtractMvccKey(key).1
  }

  predicate NulFree(user: Bytes) {
    0 !in user
  }

  /** Extract inverts Build for every user key, with or without NUL bytes. */
  lemma {:induction false} ExtractInvertsBuild(user: Bytes, tx: TxnId)
    ensures ExtractMvccKey(BuildMvccKey(user, tx)) == (user, tx)
  {
    var key := BuildMvccKey(user, tx);
    Widths();
    BigEndianRoundTrip(tx, 8);
    assert key[..|key| - 9] == user;
    assert key[|key| - 8..] == BigEndian(tx, 8);
  }

  ghost predicate IsBuilt(key: Bytes) {
    exists user: Bytes, tx: TxnId :: key == BuildMvccKey(user, tx)
  }

  /** Every stored key is either a built one, and Extract gives the parts it was built from, or it belongs
      as a whole to transaction 0. */
  lemma {:induction false} ExtractExactly(key: Bytes)
    ensures var (user, tx) := ExtractMvccKey(key);
      if IsBuilt(key) then tx <= MAX_TXID && key == BuildMvccKey(user, tx) else user == key && tx == 0
  {
    Widths();
    if user: Bytes, tx: TxnId :| key == BuildMvccKey(user, tx) {
      ExtractInvertsBuild(user, tx);
    } else if |key| >= 9 && key[|key| - 9] == 0 {
      var user, tail := key[..|key| - 9], key[|key| - 8..];
      BigEndianOnto(tail);
      assert key == BuildMvccKey(user, FromBigEndian(tail));
    }
  }

  /** The order that readers and vacuum rely on: by user key, then by transaction. */
  predicate VersionLess(u: Bytes, t: nat, u': Bytes, t': nat) {
    Less(u, u') || (u == u' && t < t')
  }

  /** Some pair of IDs makes the stored keys of `u` and `w` sort against the user keys exactly
      when one of the two is confusable with the other: `w` continues `u` with a NUL byte, and not
      with a NUL byte followed by eight 0xFF bytes. */
  predicate Confusable(u: Bytes, w: Bytes) {
    u < w && w[|u|] == 0 && !(SATURATED <= w[|u| + 1..])
  }

  const SATURATED: Bytes := [255, 255, 255, 255, 255, 255, 255, 255]

  ghost predicate OrderEmbeds(u: Bytes, w: Bytes) {
    forall t: TxnId, t': TxnId ::
      Less(BuildMvccKey(u, t), BuildMvccKey(w, t')) <==> VersionLess(u, t, w, t')
  }

  /** Byte order of the stored keys is the version order, for all NUL-free user keys. */
  lemma {:induction false} KeyOrderEmbedding(u: Bytes, t: TxnId, u': Bytes, t': TxnId)
    requires NulFree(u) && NulFree(u')
    ensures Less(BuildMvccKey(u, t), BuildMvccKey(u', t')) <==> VersionLess(u, t, u', t')
  {
    assert !Confusable(u, u') && !Confusable(u', u);
    EmbedsPair(u, t, u', t');
  }

  /** The exact condition, for all pairs of user keys. */
  lemma {:induction false} KeyOrderEmbedsExactly(u: Bytes, w: Bytes)
    ensures OrderEmbeds(u, w) <==> !Confusable(u, w) && !Confusable(w, u)
  {
    if Confusable(u, w) {
      ConfusedOrder(u, w);
      LessExtends(u, w);
      assert !Less(BuildMvccKey(u, MAX_TXID), BuildMvccKey(w, 0)) && VersionLess(u, MAX_TXID, w, 0);
    } else if Confusable(w, u) {
      ConfusedOrder(w, u);
      LessExtends(w, u);
      LessAsymmetric(w, u);
      LessTotal(BuildMvccKey(u, 0), BuildMvccKey(w, MAX_TXID));
      ExtractInvertsBuild(u, 0);
      ExtractInvertsBuild(w, MAX_TXID);
      assert Less(BuildMvccKey(u, 0), BuildMvccKey(w, MAX_TXID)) && !VersionLess(u, 0, w, MAX_TXID);
    } else {
      forall t: TxnId, t': TxnId
        ensures Less(BuildMvccKey(u, t), BuildMvccKey(w, t')) <==> VersionLess(u, t, w, t')
      {
        EmbedsPair(u, t, w, t');
      }
    }
  }

  /** A NUL inside a user key breaks the order: the version of key "a" with the largest ID
      sorts after version 0 of key "a\0". */
  lemma {:induction false} NulBreaksOrder()
    ensures !OrderEmbeds([97], [97, 0])
  {
    assert Confusable([97], [97, 0]);
    KeyOrderEmbedsExactly([97], [97, 0]);
  }

  lemma {:induction false} EmbedsPair(u: Bytes, t: TxnId, w: Bytes, t': TxnId)
    requires !Confusable(u, w) && !Confusable(w, u)
    ensures Less(BuildMvccKey(u, t), BuildMvccKey(w, t')) <==> VersionLess(u, t, w, t')
  {
    if u == w {
      LessIrreflexive(u);
      Widths();
      BigEndianOrder(t, t', 8);
      LessPrefix(u + [0], BigEndian(t, 8), BigEndian(t', 8));
    } else if u < w {
      LessExtends(u, w);
      ExtensionSortsAfter(u, t, w, t');
    } else if w < u {
      LessExtends(w, u);
      LessAsymmetric(w, u);
      ExtensionSortsAfter(w, t', u, t);
      LessAsymmetric(BuildMvccKey(w, t'), BuildMvccKey(u, t));
    } else {
      LessTotal(u, w);
      if Less(u, w) {
        LessDiverging(u, w, [0] + BigEndian(t, 8), [0] + BigEndian(t', 8));
      } else {
        LessAsymmetric(w, u);
        LessDiverging(w, u, [0] + BigEndian(t', 8), [0] + BigEndian(t, 8));
        LessAsymmetric(w + ([0] + BigEndian(t', 8)), u + ([0] + BigEndian(t, 8)));
      }
      assert BuildMvccKey(u, t) == u + ([0] + BigEndian(t, 8));
      assert BuildMvccKey(w, t') == w + ([0] + BigEndian(t', 8));
    }
  }

  /** A proper prefix is smaller. */
  lemma {:induction false} LessExtends(u: Bytes, w: Bytes)
    requires u < w
    ensures Less(u, w)
  {
    LessPrefix(u, [], w[|u|..]);
    assert u + [] == u && u + w[|u|..] == w;
  }

  /** If neither string is a prefix of the other, what follows them is irrelevant. */
  lemma {:induction false} LessDiverging(u: Bytes, w: Bytes, a: Bytes, b: Bytes)
    requires Less(u, w) && !(u <= w)
    ensures Less(u + a, w + b)
    decreases |u|
  {
    if u[0] == w[0] {
      assert !(u[1..] <= w[1..]);
      LessDiverging(u[1..], w[1..], a, b);
      assert (u + a)[1..] == u[1..] + a && (w + b)[1..] == w[1..] + b;
    }
  }

  lemma {:induction false} ExtensionSortsAfter(u: Bytes, t: TxnId, w: Bytes, t': TxnId)
    requires u < w && !Confusable(u, w)
    ensures Less(BuildMvccKey(u, t), BuildMvccKey(w, t'))
  {
    var rest := w[|u| + 1..];
    var a, b := [0] + BigEndian(t, 8), [w[|u|]] + rest + [0] + BigEndian(t', 8);
    assert BuildMvccKey(u, t) == u + a;
    assert w == u + [w[|u|]] + rest;
    assert BuildMvccKey(w, t') == u + b;
    LessPrefix(u, a, b);
    if w[|u|] == 0 {
      var c := rest[8..] + [0] + BigEndian(t', 8);
      BelowSaturated(BigEndian(t, 8), rest[..8], c);
      assert a[1..] == BigEndian(t, 8);
      assert b[1..] == rest[..8] + c;
    }
  }

  /** A string of the same length as an all-0xFF string, but continued, is larger. */
  lemma {:induction false} BelowSaturated(a: Bytes, f: Bytes, c: Bytes)
    requires |a| == |f| && c != []
    requires forall i :: 0 <= i < |f| ==> f[i] == 255
    ensures Less(a, f + c)
    decreases |a|
  {
    if a == [] {
      assert f + c == c;
    } else {
      assert (f + c)[1..] == f[1..] + c;
      BelowSaturated(a[1..], f[1..], c);
    }
  }

  lemma {:induction false} ConfusedOrder(u: Bytes, w: Bytes)
    requires Confusable(u, w)
    ensures !Less(BuildMvccKey(u, MAX_TXID), BuildMvccKey(w, 0))
    ensures BuildMvccKey(u, MAX_TXID) != BuildMvccKey(w, 0)
  {
    ExtractInvertsBuild(u, MAX_TXID);
    ExtractInvertsBuild(w, 0);
    var rest := w[|u| + 1..];
    assert w == u + [0] + rest;
    ConfusedNotLess(u, w, rest);
  }

  lemma {:induction false} ConfusedNotLess(u: Bytes, w: Bytes, rest: Bytes)
    requires w == u + [0] + rest && !(SATURATED <= rest)
    ensures !Less(BuildMvccKey(u, MAX_TXID), BuildMvccKey(w, 0))
  {
    ConfusedParts(u, w, rest);
    var tail := BigEndian(0, 8);
    LessPrefix(u + [0], SATURATED, rest + [0] + tail);
    NotSaturated(rest, tail);
    SaturatedIsAll255();
    AboveUnsaturated(SATURATED, rest + [0] + tail);
  }

  lemma {:induction false} SaturatedIsAll255()
    ensures forall i :: 0 <= i < |SATURATED| ==> SATURATED[i] == 255
  {
  }

  lemma {:induction false} ConfusedParts(u: Bytes, w: Bytes, rest: Bytes)
    requires w == u + [0] + rest
    ensures BuildMvccKey(u, MAX_TXID) == (u + [0]) + SATURATED
    ensures BuildMvccKey(w, 0) == (u + [0]) + (rest + [0] + BigEndian(0, 8))
  {
    SaturatedIsMaxId();
  }

  lemma {:induction false} NotSaturated(rest: Bytes, tail: Bytes)
    requires !(SATURATED <= rest)
    ensures !(SATURATED <= rest + [0] + tail)
  {
    var b := rest + [0] + tail;
    if |rest| < 8 {
      assert b[|rest|] == 0;
    } else {
      assert b[..8] == rest[..8];
    }
  }

  predicate AllOnes(bs: Bytes) {
    forall i :: 0 <= i < |bs| ==> bs[i] == 255
  }

  /** The largest number of a width is all 0xFF. */
  lemma {:induction false} LargestIsSaturated(width: nat)
    ensures AllOnes(BigEndian(Pow256(width) - 1, width))
  {
    if width > 0 {
      LargestIsSaturated(width - 1);
      var n, p := Pow256(width) - 1, Pow256(width - 1);
      assert n == 256 * (p - 1) + 255;
      assert n / 256 == p - 1 && n % 256 == 255;
    }
  }

  lemma {:induction false} SaturatedIsMaxId()
    ensures BigEndian(MAX_TXID, 8) == SATURATED
  {
    Widths();
    SaturatedOfWidth(8);
  }

  lemma {:induction false} SaturatedOfWidth(width: nat)
    requires width == |SATURATED|
    ensures BigEndian(Pow256(width) - 1, width) == SATURATED
  {
    LargestIsSaturated(width);
    SaturatedIsAll255();
  }

  /** Where a string first leaves an all-0xFF string it is smaller. */
  lemma {:induction false} AboveUnsaturated(f: Bytes, b: Bytes)
    requires forall i :: 0 <= i < |f| ==> f[i] == 255
    requires !(f <= b)
    ensures !Less(f, b)
    decreases |f|
  {
    if f != [] && b != [] && b[0] == 255 {
      assert !(f[1..] <= b[1..]);
      AboveUnsaturated(f[1..], b[1..]);
    }
  }
}
