/**
 The nulls that a derived serializer holds back: they are written when a later field is, and
 dropped when none is.
 */
module HeldBack {
  import opened Bytes
  import opened FormatCodes
  import opened Values
  import opened Wire

  /** Nulls held back by the derived serializer, written as list elements. */
  function Nulls(n: nat): (b: bytes)
    ensures |b| == n
  {
    seq(n, _ => NULL)
  }

  /** What is still to be written of `fs` when `nulls` fields before them have been held back. */
  function Pending(fs: seq<Field>, nulls: nat): bytes {
    if Flushed(fs) == 0 then [] else Nulls(nulls) + WireBody(fs, Flushed(fs))
  }

  lemma PendingStep(fs: seq<Field>, nulls: nat)
    requires fs != []
    ensures Skipped(fs[0]) ==> Pending(fs, nulls) == Pending(fs[1..], nulls + 1)
    ensures !Skipped(fs[0]) ==> Pending(fs, nulls) == Nulls(nulls) + WireBytes(fs[0]) + Pending(fs[1..], 0)
    ensures Flushed(fs) == if Flushed(fs[1..]) > 0 then Flushed(fs[1..]) + 1 else if Skipped(fs[0]) then 0 else 1
  {
    FlushedStep(fs);
    var n := Flushed(fs[1..]);
    WireStep(fs, n + 1);
    WireStep(fs[1..], 0);
    hide Skipped, Flushed, Nulls, WireBody, WireBytes;
    NullsStep(nulls);
    if n > 0 {
      assert Nulls(nulls) + (WireBytes(fs[0]) + WireBody(fs[1..], n)) == Nulls(nulls) + WireBytes(fs[0]) + WireBody(fs[1..], n);
    }
    if !Skipped(fs[0]) && n == 0 {
      assert WireBytes(fs[0]) + [] == WireBytes(fs[0]);
    }
  }

  lemma FlushedStep(fs: seq<Field>)
    requires fs != []
    ensures Flushed(fs) == if Flushed(fs[1..]) > 0 then Flushed(fs[1..]) + 1 else if Skipped(fs[0]) then 0 else 1
    ensures Skipped(fs[0]) ==> WireBytes(fs[0]) == [NULL]
  {
  }

  lemma WireStep(fs: seq<Field>, n: nat)
    ensures fs != [] && n > 0 ==> WireBody(fs, n) == WireBytes(fs[0]) + WireBody(fs[1..], n - 1)
    ensures fs == [] || n == 0 ==> WireBody(fs, n) == []
  {
  }

  lemma NullsStep(n: nat)
    ensures Nulls(n + 1) == Nulls(n) + [NULL] && Nulls(0) == []
    ensures forall b: bytes :: Nulls(n + 1) + b == Nulls(n) + ([NULL] + b) && Nulls(0) + b == b
  {
    assert Nulls(n + 1) == Nulls(n) + [NULL];
    forall b: bytes ensures Nulls(n + 1) + b == Nulls(n) + ([NULL] + b) && Nulls(0) + b == b {
      assert Nulls(n) + [NULL] + b == Nulls(n) + ([NULL] + b);
    }
  }

  lemma NothingPending(nulls: nat)
    ensures Flushed([]) == 0 && Pending([], nulls) == []
  {
  }
}
