/**
  Storage keys: the byte strings the database writer stores under.

  Byte strings are compared lexicographically by the store. Timer keys are
  `crates/vo-actor/src/db_writer.rs:593-623`; event, instance, snapshot and effect keys are the
  encoders of `crates/vo-storage/src` that the writer calls.
 */
module Keys {

  type Key = seq<int>

  const U64: nat := 0x1_0000_0000_0000_0000

  type Word = n: nat | n < U64

  predicate IsBytes(k: Key) {
    forall i :: 0 <= i < |k| ==> 0 <= k[i] < 256
  }

  /** An instance id: `text` is the printed form (26 characters), `bytes` the binary form. */
  datatype InstanceForms = InstanceForms(text: string, bytes: Key)
  type InstanceId = f: InstanceForms | |f.text| == 26 && |f.bytes| == 16 && IsBytes(f.bytes)
    witness InstanceForms("00000000000000000000000000", [0, 0, 0, 0, 0, 0, 0, 0, 0, 0, 0, 0, 0, 0, 0, 0])

  /** A timer id, in the binary form that enters keys. */
  type TimerId = k: Key | |k| == 16 && IsBytes(k)
    witness [0, 0, 0, 0, 0, 0, 0, 0, 0, 0, 0, 0, 0, 0, 0, 0]

  function Pow256(width: nat): (r: nat)
    ensures r > 0
  {
    if width == 0 then 1 else 256 * Pow256(width - 1)
  }

  /** `to_be_bytes` of a number of `width` bytes. */
  function BigEndian(v: nat, width: nat): (k: Key)
    requires v < Pow256(width)
    ensures |k| == width && IsBytes(k)
  {
    if width == 0 then [] else BigEndian(v / 256, width - 1) + [v % 256]
  }

  /** `from_be_bytes`. */
  function FromBigEndian(k: Key): int {
    if k == [] then 0 else 256 * FromBigEndian(k[..|k| - 1]) + k[|k| - 1]
  }

  lemma {:induction false} BigEndianRoundTrip(v: nat, width: nat)
    requires v < Pow256(width)
    ensures FromBigEndian(BigEndian(v, width)) == v
  {
    if width > 0 {
      assert BigEndian(v, width)[..width - 1] == BigEndian(v / 256, width - 1);
      BigEndianRoundTrip(v / 256, width - 1);
    }
  }

  /** Byte-lexicographic order; a proper prefix comes first. */
  predicate LexLess(a: Key, b: Key) {
    if b == [] then false
    else if a == [] then true
    else a[0] < b[0] || (a[0] == b[0] && LexLess(a[1..], b[1..]))
  }

  /** Fields of equal width compare one after the other. */
  lemma {:induction false} LexConcat(a: Key, b: Key, c: Key, d: Key)
    requires |a| == |b|
    ensures LexLess(a + c, b + d) <==> LexLess(a, b) || (a == b && LexLess(c, d))
  {
    if a == [] {
      assert a + c == c && b + d == d;
    } else {
      assert (a + c)[1..] == a[1..] + c && (b + d)[1..] == b[1..] + d;
      LexConcat(a[1..], b[1..], c, d);
      assert a == b <==> a[0] == b[0] && a[1..] == b[1..] by {
        assert a == [a[0]] + a[1..] && b == [b[0]] + b[1..];
      }
    }
  }

  /** Big-endian numbers of one width compare as numbers. */
  lemma {:induction false} BigEndianOrder(v: nat, u: nat, width: nat)
    requires v < Pow256(width) && u < Pow256(width)
    ensures LexLess(BigEndian(v, width), BigEndian(u, width)) <==> v < u
    ensures BigEndian(v, width) == BigEndian(u, width) <==> v == u
  {
    BigEndianRoundTrip(v, width);
    BigEndianRoundTrip(u, width);
    if width > 0 {
      BigEndianOrder(v / 256, u / 256, width - 1);
      LexConcat(BigEndian(v / 256, width - 1), BigEndian(u / 256, width - 1), [v % 256], [u % 256]);
    }
  }

  lemma Pow256Eight()
    ensures Pow256(8) == U64
  {
    assert Pow256(4) == 0x1_0000_0000;
  }

  function Be64(v: Word): (k: Key)
    ensures |k| == 8 && IsBytes(k)
  {
    Pow256Eight();
    BigEndian(v, 8)
  }

  /** `encode_timer_key`, and `encode_timer_key_raw` with the fire time given as a number. */
  function TimerKey(fireAt: Word, instance: InstanceId, timer: TimerId): Key
  {
    Be64(fireAt) + instance.bytes + timer
  }

  /** The components of a timer key, read back by position. */
  function DecodeTimerKey(k: Key): (int, Key, Key)
    requires |k| == 40
  {
    (FromBigEndian(k[..8]), k[8..24], k[24..])
  }

  lemma TimerKeyRoundTrip(fireAt: Word, instance: InstanceId, timer: TimerId)
    ensures var k := TimerKey(fireAt, instance, timer);
            |k| == 40 && DecodeTimerKey(k) == (fireAt, instance.bytes, timer)
  {
    var k := TimerKey(fireAt, instance, timer);
    assert k[..8] == Be64(fireAt) && k[8..24] == instance.bytes && k[24..] == timer;
    Pow256Eight();
    BigEndianRoundTrip(fireAt, 8);
  }

  /** The order of timers: by fire time as a number, then instance bytes, then timer bytes. */
  predicate TimerBefore(f: Word, i: InstanceId, t: TimerId, f': Word, i': InstanceId, t': TimerId) {
    || f < f'
    || (f == f' && LexLess(i.bytes, i'.bytes))
    || (f == f' && i.bytes == i'.bytes && LexLess(t, t'))
  }

  /** Scanning the timers partition in key order visits timers in order of fire time. */
  lemma TimerKeyOrder(f: Word, i: InstanceId, t: TimerId, f': Word, i': InstanceId, t': TimerId)
    ensures LexLess(TimerKey(f, i, t), TimerKey(f', i', t')) <==> TimerBefore(f, i, t, f', i', t')
    ensures TimerKey(f, i, t) == TimerKey(f', i', t') <==> f == f' && i.bytes == i'.bytes && t == t'
  {
    Pow256Eight();
    BigEndianOrder(f, f', 8);
    LexConcat(Be64(f), Be64(f'), i.bytes, i'.bytes);
    LexConcat(Be64(f) + i.bytes, Be64(f') + i'.bytes, t, t');
    TimerKeyRoundTrip(f, i, t);
    TimerKeyRoundTrip(f', i', t');
  }

  /** The bytes of ASCII text. */
  function TextBytes(s: string): (k: Key)
    ensures |k| == |s|
    ensures forall i :: 0 <= i < |s| ==> k[i] == s[i] as int
  {
    seq(|s|, i requires 0 <= i < |s| => s[i] as int)
  }

  /** Lease keys are printed text: `{instance_id}::{step_id}`. */
  function LeaseKey(instance: InstanceId, step: string): Key {
    TextBytes(instance.text + "::" + step)
  }

  /** Because printed instance ids have one length, lease keys of different pairs differ. */
  lemma LeaseKeyInjective(i: InstanceId, s: string, i': InstanceId, s': string)
    ensures LeaseKey(i, s) == LeaseKey(i', s') <==> i.text == i'.text && s == s'
  {
    var a, b := i.text + "::" + s, i'.text + "::" + s';
    if LeaseKey(i, s) == LeaseKey(i', s') {
      TextBytesInjective(a, b);
      assert a[..|i.text|] == i.text && b[..|i.text|] == i'.text;
      assert a[|i.text| + 2..] == s && b[|i.text| + 2..] == s';
    }
  }

  /** `[16 as u16][instance bytes][sequence]`. */
  function EventKey(instance: InstanceId, sequence: Word): Key
  {
    [0, 16] + instance.bytes + Be64(sequence)
  }

  /** The components of an event key, read back by position. */
  function DecodeEventKey(k: Key): (Key, int)
    requires |k| == 26
  {
    (k[2..18], FromBigEndian(k[18..]))
  }

  lemma EventKeyRoundTrip(i: InstanceId, n: Word)
    ensures var k := EventKey(i, n); |k| == 26 && IsBytes(k) && DecodeEventKey(k) == (i.bytes, n)
  {
    var k := EventKey(i, n);
    assert k[2..18] == i.bytes && k[18..] == Be64(n);
    Pow256Eight();
    BigEndianRoundTrip(n, 8);
  }

  /** Fields of one width and then a number compare first as bytes, then as numbers. */
  lemma NumberBehind(a: Key, b: Key, n: Word, n': Word)
    requires |a| == |b|
    ensures LexLess(a + Be64(n), b + Be64(n')) <==> LexLess(a, b) || (a == b && n < n')
  {
    LexConcat(a, b, Be64(n), Be64(n'));
    Pow256Eight();
    BigEndianOrder(n, n', 8);
  }

  lemma {:induction false} LexIrreflexive(a: Key)
    ensures !LexLess(a, a)
  {
    if a != [] {
      LexIrreflexive(a[1..]);
    }
  }

  /** Event keys are different for different events, and those of one instance in sequence order. */
  lemma EventKeyOrder(i: InstanceId, n: Word, i': InstanceId, n': Word)
    ensures EventKey(i, n) == EventKey(i', n') <==> i.bytes == i'.bytes && n == n'
    ensures LexLess(EventKey(i, n), EventKey(i', n'))
       <==> LexLess(i.bytes, i'.bytes) || (i.bytes == i'.bytes && n < n')
  {
    EventKeyRoundTrip(i, n);
    EventKeyRoundTrip(i', n');
    LexConcat([0, 16], [0, 16], i.bytes, i'.bytes);
    LexIrreflexive([0, 16]);
    NumberBehind([0, 16] + i.bytes, [0, 16] + i'.bytes, n, n');
    assert ([0, 16] + i.bytes)[2..] == i.bytes && ([0, 16] + i'.bytes)[2..] == i'.bytes;
  }

  /** `[status][timestamp][instance bytes]`. */
  function InstanceIndexKey(status: int, now: Word, instance: InstanceId): Key
  {
    [status] + Be64(now) + instance.bytes
  }

  /** The components of an instance key, read back by position. */
  function DecodeInstanceIndexKey(k: Key): (int, int, Key)
    requires |k| == 25
  {
    (k[0], FromBigEndian(k[1..9]), k[9..])
  }

  lemma InstanceIndexKeyRoundTrip(status: int, now: Word, i: InstanceId)
    ensures var k := InstanceIndexKey(status, now, i);
            |k| == 25 && DecodeInstanceIndexKey(k) == (status, now, i.bytes)
  {
    var k := InstanceIndexKey(status, now, i);
    assert k[1..9] == Be64(now) && k[9..] == i.bytes;
    Pow256Eight();
    BigEndianRoundTrip(now, 8);
  }

  /** Instance keys sort by status, then time, then instance. */
  lemma InstanceIndexKeyOrder(s: int, n: Word, i: InstanceId, s': int, n': Word, i': InstanceId)
    ensures InstanceIndexKey(s, n, i) == InstanceIndexKey(s', n', i') <==> s == s' && n == n' && i.bytes == i'.bytes
    ensures LexLess(InstanceIndexKey(s, n, i), InstanceIndexKey(s', n', i'))
       <==> s < s' || (s == s' && (n < n' || (n == n' && LexLess(i.bytes, i'.bytes))))
  {
    InstanceIndexKeyRoundTrip(s, n, i);
    InstanceIndexKeyRoundTrip(s', n', i');
    LexConcat([s] + Be64(n), [s'] + Be64(n'), i.bytes, i'.bytes);
    NumberBehind([s], [s'], n, n');
    assert LexLess([s], [s']) <==> s < s';
    Pow256Eight();
    BigEndianOrder(n, n', 8);
    assert ([s] + Be64(n))[1..] == Be64(n) && ([s'] + Be64(n'))[1..] == Be64(n');
  }

  /** `[instance bytes][sequence]`. */
  function SnapshotKey(instance: InstanceId, sequence: Word): Key
  {
    instance.bytes + Be64(sequence)
  }

  /** The components of a snapshot key, read back by position. */
  function DecodeSnapshotKey(k: Key): (Key, int)
    requires |k| == 24
  {
    (k[..16], FromBigEndian(k[16..]))
  }

  lemma SnapshotKeyRoundTrip(i: InstanceId, n: Word)
    ensures var k := SnapshotKey(i, n); |k| == 24 && IsBytes(k) && DecodeSnapshotKey(k) == (i.bytes, n)
  {
    var k := SnapshotKey(i, n);
    assert k[..16] == i.bytes && k[16..] == Be64(n);
    Pow256Eight();
    BigEndianRoundTrip(n, 8);
  }

  /** Snapshot keys are different for different snapshots, and those of one instance in sequence order. */
  lemma SnapshotKeyOrder(i: InstanceId, n: Word, i': InstanceId, n': Word)
    ensures SnapshotKey(i, n) == SnapshotKey(i', n') <==> i.bytes == i'.bytes && n == n'
    ensures LexLess(SnapshotKey(i, n), SnapshotKey(i', n'))
       <==> LexLess(i.bytes, i'.bytes) || (i.bytes == i'.bytes && n < n')
  {
    SnapshotKeyRoundTrip(i, n);
    SnapshotKeyRoundTrip(i', n');
    NumberBehind(i.bytes, i'.bytes, n, n');
  }

  /**
    The writer names effects after a placeholder instance id of all zero bytes, which the key
    encoder refuses to parse; it falls back to the whole text behind its 16-bit length.
   */
  function EffectKey(intent: string): Key
    requires |intent| + 28 < 0x1_0000
  {
    var text := "00000000000000000000000000::" + intent;
    [|text| / 256, |text| % 256] + TextBytes(text)
  }

  lemma TextBytesInjective(a: string, b: string)
    ensures TextBytes(a) == TextBytes(b) <==> a == b
  {
    if TextBytes(a) == TextBytes(b) {
      forall k | 0 <= k < |a|
        ensures a[k] == b[k]
      {
        assert TextBytes(a)[k] == TextBytes(b)[k];
      }
    }
  }

  /** Effects share the placeholder instance, so their keys are told apart by the intent alone. */
  lemma EffectKeyInjective(a: string, b: string)
    requires |a| + 28 < 0x1_0000 && |b| + 28 < 0x1_0000
    ensures EffectKey(a) == EffectKey(b) <==> a == b
    ensures |EffectKey(a)| == |a| + 30 && 256 * EffectKey(a)[0] + EffectKey(a)[1] == |a| + 28 && EffectKey(a)[0] < 256
  {
    var x, y := "00000000000000000000000000::" + a, "00000000000000000000000000::" + b;
    if EffectKey(a) == EffectKey(b) {
      assert EffectKey(a)[2..] == TextBytes(x) && EffectKey(b)[2..] == TextBytes(y);
      TextBytesInjective(x, y);
      assert x[28..] == a && y[28..] == b;
    }
  }
}
