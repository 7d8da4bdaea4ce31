/** Vocabulary shared by every component: bytes, machine-word bounds, results and
    the lexicographic order of byte strings. */
module Base {
  const U16_LIMIT := 0x1_0000
  const U32_LIMIT := 0x1_0000_0000
  const U64_LIMIT := 0x1_0000_0000_0000_0000

  type Byte = b: int | 0 <= b < 256
  type U16 = n: int | 0 <= n < U16_LIMIT
  type U32 = n: int | 0 <= n < U32_LIMIT
  type U64 = n: int | 0 <= n < U64_LIMIT
  type I16 = i: int | -0x8000 <= i < 0x8000
  type I32 = i: int | -0x8000_0000 <= i < 0x8000_0000
  type I64 = i: int | -0x8000_0000_0000_0000 <= i < 0x8000_0000_0000_0000
  type Bytes = seq<Byte>

  // Signed words and their two's complement patterns.
  function Signed16(v: U16): I16 { if v < 0x8000 then v else v - U16_LIMIT }
  function Unsigned16(i: I16): U16 { if 0 <= i then i else i + U16_LIMIT }
  function Signed32(v: U32): I32 { if v < 0x8000_0000 then v else v - U32_LIMIT }
  function Unsigned32(i: I32): U32 { if 0 <= i then i else i + U32_LIMIT }
  function Signed64(v: U64): I64 { if v < 0x8000_0000_0000_0000 then v else v - U64_LIMIT }
  function Unsigned64(i: I64): U64 { if 0 <= i then i else i + U64_LIMIT }

  datatype Option<+T> = None | Some(value: T) {
    function GetOr(default: T): T {
      if Some? then value else default
    }
  }

  /** Errors carry the SQLSTATE the program reports. */
  datatype Result<+T> = Ok(value: T) | Err(state: string) {
    predicate IsFailure() {
      Err?
    }

    function PropagateFailure<U>(): Result<U>
      requires Err?
    {
      Err(state)
    }

    function Extract(): T
      requires Ok?
    {
      value
    }
  }

  // A value read from the front of some bytes, and the bytes after it.
  datatype Parsed<+T> = Parsed(value: T, rest: Bytes)

  /** A command that either succeeds or reports an SQLSTATE. */
  datatype Outcome = Done | Failed(state: string)

  /** Byte strings compare lexicographically, a proper prefix first. */
  predicate BytesLess(a: Bytes, b: Bytes) {
    b != [] && (a == [] || a[0] < b[0] || (a[0] == b[0] && BytesLess(a[1..], b[1..])))
  }

  predicate BytesAtMost(a: Bytes, b: Bytes) {
    !BytesLess(b, a)
  }

  /** One byte string is less than another exactly if it is a proper prefix of it, or has the smaller
      byte where they first differ. */
  lemma {:induction false} BytesLessIff(a: Bytes, b: Bytes)
    ensures BytesLess(a, b) <==>
            exists k :: 0 <= k <= |a| && k < |b| && a[..k] == b[..k] && (k == |a| || a[k] < b[k])
  {
    if a == [] || b == [] || a[0] != b[0] {
      if a != [] && b != [] {
        forall k | 0 < k <= |a| && k < |b| ensures a[..k] != b[..k] {
          assert a[..k][0] != b[..k][0];
        }
      }
      if BytesLess(a, b) {
        assert a[..0] == b[..0];
      }
    } else {
      var at, bt := a[1..], b[1..];
      BytesLessIff(at, bt);
      if BytesLess(at, bt) {
        var k :| 0 <= k <= |at| && k < |bt| && at[..k] == bt[..k] && (k == |at| || at[k] < bt[k]);
        assert a[..k + 1] == [a[0]] + at[..k] && b[..k + 1] == [b[0]] + bt[..k];
        assert a[..k + 1] == b[..k + 1];
      }
      if k :| 0 <= k <= |a| && k < |b| && a[..k] == b[..k] && (k == |a| || a[k] < b[k]) {
        if 0 < k {
          assert at[..k - 1] == a[..k][1..] == b[..k][1..] == bt[..k - 1];
        }
      }
    }
  }

  lemma {:induction false} BytesTotal(a: Bytes, b: Bytes)
    ensures BytesLess(a, b) || a == b || BytesLess(b, a)
    ensures !(BytesLess(a, b) && BytesLess(b, a))
    ensures !BytesLess(a, a)
  {
    if a != [] {
      BytesTotal(a[1..], a[1..]);
      if b != [] && a[0] == b[0] {
        BytesTotal(a[1..], b[1..]);
        if a[1..] == b[1..] {
          assert a == [a[0]] + a[1..] == b;
        }
      }
    }
  }

  lemma {:induction false} BytesLessTransitive(a: Bytes, b: Bytes, c: Bytes)
    requires BytesLess(a, b) && BytesLess(b, c)
    ensures BytesLess(a, c)
  {
    if a != [] && a[0] == b[0] == c[0] {
      BytesLessTransitive(a[1..], b[1..], c[1..]);
    }
  }

  lemma BytesAtMostTransitive(a: Bytes, b: Bytes, c: Bytes)
    requires BytesAtMost(a, b) && BytesAtMost(b, c)
    ensures BytesAtMost(a, c)
  {
    BytesTotal(a, b);
    BytesTotal(b, c);
    if BytesLess(c, a) && a != b {
      BytesLessTransitive(c, a, b);
    }
  }

  lemma SubsetIsSmaller(a: set<nat>, b: set<nat>)
    requires a <= b
    ensures |a| <= |b| && (a != b ==> |a| < |b|)
  {
    assert b == a + (b - a);
  }

  /** The first key in the order of an ordered set or map. */
  function Least(ids: set<nat>): (least: nat)
    requires ids != {}
    ensures least in ids && forall id | id in ids :: least <= id
  {
    LeastExists(ids);
    var least :| least in ids && forall id | id in ids :: least <= id;
    least
  }

  ghost predicate IsLeast(ids: set<nat>, least: nat) {
    least in ids && forall id | id in ids :: least <= id
  }

  lemma {:induction false} FindLeast(ids: set<nat>) returns (least: nat)
    requires ids != {}
    ensures IsLeast(ids, least)
    decreases |ids|
  {
    var id :| id in ids;
    var rest := ids - {id};
    if rest == {} {
      assert ids == {id};
      least := id;
    } else {
      var other := FindLeast(rest);
      assert ids == rest + {id};
      least := if id < other then id else other;
    }
  }

  lemma LeastExists(ids: set<nat>)
    requires ids != {}
    ensures exists least :: least in ids && forall id | id in ids :: least <= id
  {
    var least := FindLeast(ids);
    assert least in ids && forall id | id in ids :: least <= id;
  }
}
