/** Fixed-size records read out of a buffer, one at an address or `count` of them at a
    fixed stride, as `Marshal.PtrToStructure` does for a struct type `T`. */
module Records {
  import opened Bytes

  /** What the mapper needs of a struct type `T`: its size in bytes and how the runtime
      turns exactly that many bytes into a value of `T`. It stands for `typeof(T)`. */
  datatype RecordType<T> = RecordType(size: nat, decode: seq<byte> --> T)

  /** The decoder accepts every byte string of the record's size. */
  ghost predicate WellFormed<T>(rt: RecordType<T>) {
    forall bs: seq<byte> :: |bs| == rt.size ==> rt.decode.requires(bs)
  }

  /** A raw address (`IntPtr`): `index` bytes past the first byte of the pinned array
      `block`. The index may lie outside the array; reading there is not modelled. */
  datatype Address = Address(block: array<byte>, index: int) {
    /** `pointer + n` */
    function Advance(n: int): Address {
      Address(block, index + n)
    }
  }

  /** Where the `k`-th of a run of records starting at `pointer` begins: the pointer
      after `k` steps of `pointer += recordSize`. */
  function RecordAt(pointer: int, recordSize: int, k: nat): int {
    if k == 0 then pointer else RecordAt(pointer, recordSize, k - 1) + recordSize
  }

  /** The `k`-th record of a run starts at `pointer + k * recordSize`. */
  lemma {:induction false} RecordAtIsProduct(pointer: int, recordSize: int, k: nat)
    ensures RecordAt(pointer, recordSize, k) == pointer + k * recordSize
  {
    if k > 0 {
      RecordAtIsProduct(pointer, recordSize, k - 1);
      assert k * recordSize == (k - 1) * recordSize + recordSize;
    }
  }

  /** The record `k` places after the `m`-th is the `(m + k)`-th. */
  lemma {:induction false} RecordAtSum(pointer: int, recordSize: int, m: nat, k: nat)
    ensures RecordAt(RecordAt(pointer, recordSize, m), recordSize, k) == RecordAt(pointer, recordSize, m + k)
  {
    if k > 0 {
      RecordAtSum(pointer, recordSize, m, k - 1);
    }
  }

  /** Every one of the `count` records at stride `recordSize` from `pointer` lies inside a
      buffer of `length` bytes. Nothing requires `recordSize >= size`: records may overlap. */
  ghost predicate RecordsInBounds(length: int, pointer: int, recordSize: int, count: int, size: nat) {
    forall k: nat :: k < count ==> InSpan(length, RecordAt(pointer, recordSize, k), size)
  }

  /** The record whose bytes start at `at`: a value copy of those bytes. */
  function ReadRecord<T>(buf: seq<byte>, rt: RecordType<T>, at: int): T
    requires WellFormed(rt) && InSpan(|buf|, at, rt.size)
  {
    rt.decode(buf[at..at + rt.size])
  }

  /** `Marshal.PtrToStructure(pointer, typeof(T))`: the record at an address of a pinned
      array, decoded from the array's current bytes. */
  function PtrToStructure<T>(pointer: Address, rt: RecordType<T>): (r: T)
    reads pointer.block
    requires WellFormed(rt) && InSpan(pointer.block.Length, pointer.index, rt.size)
    ensures r == ReadRecord(pointer.block[..], rt, pointer.index)
  {
    rt.decode(pointer.block[pointer.index..pointer.index + rt.size])
  }

  /** Moving the start of a run one stride on leaves the remaining records where they were. */
  lemma RunAdvance(length: int, pointer: int, next: int, recordSize: int, count: int, size: nat)
    requires next == pointer + recordSize
    requires count > 0 && RecordsInBounds(length, pointer, recordSize, count, size)
    ensures InSpan(length, pointer, size)
    ensures RecordsInBounds(length, next, recordSize, count - 1, size)
    ensures forall k: nat :: RecordAt(next, recordSize, k) == RecordAt(pointer, recordSize, k + 1)
  {
    assert RecordAt(pointer, recordSize, 0) == pointer;
    assert RecordAt(pointer, recordSize, 1) == next;
    forall k: nat
      ensures RecordAt(next, recordSize, k) == RecordAt(pointer, recordSize, k + 1)
    {
      RecordAtSum(pointer, recordSize, 1, k);
    }
  }

  /** The records the iterator of `ReadMultiple<T>(pointer, recordSize, count)` yields:
      the record at `pointer`, then the rest of the run from `pointer + recordSize`,
      until `count` have been produced; `max(count, 0)` records in all. */
  function ReadRecords<T>(buf: seq<byte>, rt: RecordType<T>, pointer: int, recordSize: int, count: int): (records: seq<T>)
    requires WellFormed(rt) && RecordsInBounds(|buf|, pointer, recordSize, count, rt.size)
    ensures |records| == if count <= 0 then 0 else count
    decreases count
  {
    if count <= 0 then []
    else
      RunAdvance(|buf|, pointer, pointer + recordSize, recordSize, count, rt.size);
      [ReadRecord(buf, rt, pointer)] + ReadRecords(buf, rt, pointer + recordSize, recordSize, count - 1)
  }

  /** The `k`-th record of the run is the record at `RecordAt(pointer, recordSize, k)`,
      that is at `pointer + k * recordSize` (`RecordAtIsProduct`). */
  lemma {:induction false} ReadRecordsAt<T>(buf: seq<byte>, rt: RecordType<T>, pointer: int, recordSize: int, count: int)
    requires WellFormed(rt) && RecordsInBounds(|buf|, pointer, recordSize, count, rt.size)
    ensures forall k: nat :: k < count ==>
              ReadRecords(buf, rt, pointer, recordSize, count)[k] == ReadRecord(buf, rt, RecordAt(pointer, recordSize, k))
    decreases count
  {
    if count > 0 {
      var next := pointer + recordSize;
      RunAdvance(|buf|, pointer, next, recordSize, count, rt.size);
      ReadRecordsAt(buf, rt, next, recordSize, count - 1);
      var run := ReadRecords(buf, rt, pointer, recordSize, count);
      var rest := ReadRecords(buf, rt, next, recordSize, count - 1);
      assert run == [ReadRecord(buf, rt, pointer)] + rest;
      forall k: nat | k < count
        ensures run[k] == ReadRecord(buf, rt, RecordAt(pointer, recordSize, k))
      {
        if k > 0 {
          assert run[k] == rest[k - 1];
          assert RecordAt(next, recordSize, k - 1) == RecordAt(pointer, recordSize, k);
        }
      }
    }
  }

  /** The records after the `m`-th of a run in bounds form a run in bounds of their own. */
  lemma RecordsInBoundsSuffix(length: int, pointer: int, recordSize: int, m: nat, n: nat, size: nat)
    requires RecordsInBounds(length, pointer, recordSize, m + n, size)
    ensures RecordsInBounds(length, pointer, recordSize, m, size)
    ensures RecordsInBounds(length, RecordAt(pointer, recordSize, m), recordSize, n, size)
  {
    forall k: nat | k < n
      ensures InSpan(length, RecordAt(RecordAt(pointer, recordSize, m), recordSize, k), size)
    {
      RecordAtSum(pointer, recordSize, m, k);
    }
  }

  /** Consuming `m` records and then starting a fresh run where the next record begins
      yields the same records as one run of `m + n`: the run can be resumed at any record. */
  lemma {:induction false} ReadRecordsResume<T>(buf: seq<byte>, rt: RecordType<T>, pointer: int, recordSize: int, m: nat, n: nat)
    requires WellFormed(rt) && RecordsInBounds(|buf|, pointer, recordSize, m + n, rt.size)
    ensures RecordsInBounds(|buf|, pointer, recordSize, m, rt.size)
    ensures RecordsInBounds(|buf|, RecordAt(pointer, recordSize, m), recordSize, n, rt.size)
    ensures ReadRecords(buf, rt, pointer, recordSize, m + n)
         == ReadRecords(buf, rt, pointer, recordSize, m) + ReadRecords(buf, rt, RecordAt(pointer, recordSize, m), recordSize, n)
    decreases n
  {
    RecordsInBoundsSuffix(|buf|, pointer, recordSize, m, n, rt.size);
    if n == 0 {
      assert ReadRecords(buf, rt, RecordAt(pointer, recordSize, m), recordSize, 0) == [];
    } else {
      var resume := RecordAt(pointer, recordSize, m);
      ReadRecordsSnoc(buf, rt, pointer, recordSize, m + (n - 1));
      ReadRecordsSnoc(buf, rt, resume, recordSize, n - 1);
      ReadRecordsResume(buf, rt, pointer, recordSize, m, n - 1);
      RecordAtSum(pointer, recordSize, m, n - 1);
    }
  }

  /** A shorter run from the same start is in bounds too. */
  lemma RecordsInBoundsPrefix(length: int, pointer: int, recordSize: int, count: int, shorter: int, size: nat)
    requires RecordsInBounds(length, pointer, recordSize, count, size) && shorter <= count
    ensures RecordsInBounds(length, pointer, recordSize, shorter, size)
  {
  }

  /** One more record extends the run at its end: the step the iterator takes. */
  lemma ReadRecordsSnoc<T>(buf: seq<byte>, rt: RecordType<T>, pointer: int, recordSize: int, n: nat)
    requires WellFormed(rt) && RecordsInBounds(|buf|, pointer, recordSize, n + 1, rt.size)
    ensures RecordsInBounds(|buf|, pointer, recordSize, n, rt.size)
    ensures InSpan(|buf|, RecordAt(pointer, recordSize, n), rt.size)
    ensures ReadRecords(buf, rt, pointer, recordSize, n + 1)
         == ReadRecords(buf, rt, pointer, recordSize, n) + [ReadRecord(buf, rt, RecordAt(pointer, recordSize, n))]
  {
    ReadRecordsAt(buf, rt, pointer, recordSize, n + 1);
    ReadRecordsAt(buf, rt, pointer, recordSize, n);
    var longer := ReadRecords(buf, rt, pointer, recordSize, n + 1);
    var extended := ReadRecords(buf, rt, pointer, recordSize, n) + [ReadRecord(buf, rt, RecordAt(pointer, recordSize, n))];
    assert forall k: nat | k < n + 1 :: longer[k] == extended[k];
  }

  /** One step of the iterator: with `idx` records read and the pointer at record `idx`,
      reading there and advancing by `recordSize` gives the run of `idx + 1` and the
      pointer at record `idx + 1`. */
  lemma ReadRecordsStep<T>(buf: seq<byte>, rt: RecordType<T>, pointer: int, recordSize: int, count: int, idx: nat)
    requires WellFormed(rt) && RecordsInBounds(|buf|, pointer, recordSize, count, rt.size)
    requires idx < count
    ensures RecordsInBounds(|buf|, pointer, recordSize, idx, rt.size)
    ensures RecordsInBounds(|buf|, pointer, recordSize, idx + 1, rt.size)
    ensures InSpan(|buf|, RecordAt(pointer, recordSize, idx), rt.size)
    ensures ReadRecords(buf, rt, pointer, recordSize, idx + 1)
         == ReadRecords(buf, rt, pointer, recordSize, idx) + [ReadRecord(buf, rt, RecordAt(pointer, recordSize, idx))]
    ensures RecordAt(pointer, recordSize, idx) + recordSize == RecordAt(pointer, recordSize, idx + 1)
  {
    RecordsInBoundsPrefix(|buf|, pointer, recordSize, count, idx + 1, rt.size);
    ReadRecordsSnoc(buf, rt, pointer, recordSize, idx);
  }
}
