/**
 * The main memory store (`MainMemory`): 4096 words in an `int` array, and
 * beside it one display row per address that always shows the decoded
 * current value of its word.
 */
module MainMemoryModel {
  import opened Wrappers
  import opened JavaNumbers
  import opened WordDecoder

  /** `MEMORY_SIZE`: 2^12 addressable words. */
  const MEMORY_SIZE: nat := 4096

  /** The `IndexOutOfBoundsException` that `write` and `read` throw for a bad address. */
  datatype MemoryError = IndexOutOfBounds(address: int)

  /** The message of that exception. */
  function MemoryErrorMessage(e: MemoryError): string {
    "Endereço de memória inválido: " + IntToString(e.address)
  }

  /** `n` words of value 0. */
  function ZeroWords(n: nat): (r: seq<Int32>)
    ensures |r| == n && forall i :: 0 <= i < n ==> r[i] == 0
  {
    seq(n, _ => 0)
  }

  /** Display row `i` of `rows` shows address `i` and word `cells[i]`, for all 4096 addresses. */
  predicate RowsShow(rows: seq<MemoryEntry>, cells: seq<Int32>) {
    && |rows| == |cells| == MEMORY_SIZE
    && forall i :: 0 <= i < MEMORY_SIZE ==> rows[i] == NewEntry(i, cells[i])
  }

  /** The display rows of the words `cells`, one per address from 0. */
  function Rows(cells: seq<Int32>): (rows: seq<MemoryEntry>)
    requires |cells| <= MEMORY_SIZE
    ensures |rows| == |cells| && forall k :: 0 <= k < |cells| ==> rows[k] == NewEntry(k, cells[k])
  {
    seq(|cells|, k requires 0 <= k < |cells| => NewEntry(k, cells[k]))
  }

  /** The words after `write(address, value)`: that one word replaced, or all kept for an address outside 0..4095. */
  function Written(cells: seq<Int32>, address: int, value: Int32): (r: seq<Int32>)
    requires |cells| == MEMORY_SIZE
    ensures |r| == MEMORY_SIZE
  {
    if 0 <= address < MEMORY_SIZE then cells[address := value] else cells
  }

  /** What `read(address)` gives on the words `cells`. */
  function ReadAt(cells: seq<Int32>, address: int): Result<Int32, MemoryError>
    requires |cells| == MEMORY_SIZE
  {
    if 0 <= address < MEMORY_SIZE then Success(cells[address]) else Failure(IndexOutOfBounds(address))
  }

  /**
   * A read after a write: the address just written gives back exactly the
   * word written, any other address what it held before, and a bad address
   * fails both times.
   */
  lemma ReadAfterWrite(cells: seq<Int32>, address: int, value: Int32, other: int)
    requires |cells| == MEMORY_SIZE
    ensures ReadAt(Written(cells, address, value), address) ==
      if 0 <= address < MEMORY_SIZE then Success(value) else Failure(IndexOutOfBounds(address))
    ensures other != address ==> ReadAt(Written(cells, address, value), other) == ReadAt(cells, other)
  {
  }

  /** A prefix one longer is the prefix followed by the next element. */
  lemma PrefixSnoc<T>(s: seq<T>, n: nat)
    requires n < |s|
    ensures s[..n + 1] == s[..n] + [s[n]]
  {
  }

  /** Refreshing every row of a consistent table with the word `v` gives the table of a store holding `v` everywhere. */
  lemma RefreshedRows(rows: seq<MemoryEntry>, cells: seq<Int32>, refreshed: seq<MemoryEntry>, v: Int32)
    requires RowsShow(rows, cells)
    requires |refreshed| == MEMORY_SIZE
    requires forall k :: 0 <= k < MEMORY_SIZE ==> refreshed[k] == UpdateValue(rows[k], v)
    ensures RowsShow(refreshed, seq(MEMORY_SIZE, _ => v))
  {
    forall k | 0 <= k < MEMORY_SIZE
      ensures refreshed[k] == NewEntry(k, v)
    {
      UpdateValueOfEntry(rows[k], k, v);
    }
  }

  /** The loop of `clearMemory` over the rows: each row refreshed with the word `v`. */
  method RefreshRows(rows: seq<MemoryEntry>, v: Int32) returns (refreshed: seq<MemoryEntry>)
    ensures |refreshed| == |rows|
    ensures forall k :: 0 <= k < |rows| ==> refreshed[k] == UpdateValue(rows[k], v)
  {
    refreshed := rows;
    for i := 0 to |rows|
      invariant |refreshed| == |rows|
      invariant forall k :: 0 <= k < i ==> refreshed[k] == UpdateValue(rows[k], v)
      invariant forall k :: i <= k < |rows| ==> refreshed[k] == rows[k]
    {
      refreshed := refreshed[i := UpdateValue(refreshed[i], v)];
    }
  }

  class MainMemory {
    /** `memoryArray`: the stored words. */
    const memoryArray: array<Int32>
    /** `memoryData`: the display rows, one per address. */
    var memoryData: seq<MemoryEntry>

    /** Exactly 4096 words and 4096 rows, and row `i` shows address `i` and the current word `i`. */
    ghost predicate Valid()
      reads this, memoryArray
    {
      memoryArray.Length == MEMORY_SIZE && RowsShow(memoryData, memoryArray[..])
    }

    /** `new MainMemory()`: every word 0. */
    constructor ()
      ensures Valid() && fresh(memoryArray)
      ensures memoryArray[..] == ZeroWords(MEMORY_SIZE)
    {
      memoryArray := new Int32[MEMORY_SIZE];
      memoryData := [];
      new;
      InitializeMemory();
    }

    /** `initializeMemory`: zero every word and rebuild all the display rows. */
    method InitializeMemory()
      requires memoryArray.Length == MEMORY_SIZE
      modifies this, memoryArray
      ensures Valid()
      ensures memoryArray[..] == ZeroWords(MEMORY_SIZE)
    {
      forall i | 0 <= i < memoryArray.Length {
        memoryArray[i] := 0;
      }
      ghost var zeros := ZeroWords(MEMORY_SIZE);
      assert memoryArray[..] == zeros;
      memoryData := [];
      for i := 0 to MEMORY_SIZE
        modifies this
        invariant memoryData == Rows(zeros)[..i]
      {
        PrefixSnoc(Rows(zeros), i);
        memoryData := memoryData + [NewEntry(i, 0)];
      }
      assert memoryData == Rows(zeros);
    }

    /**
     * `write(address, value)`: an address outside 0..4095 throws and changes
     * nothing; otherwise word `address` and its row take the new value and
     * every other address is left as it was.
     */
    method Write(address: Int32, value: Int32) returns (r: Outcome<MemoryError>)
      requires Valid()
      modifies this, memoryArray
      ensures Valid()
      ensures r == if 0 <= address < MEMORY_SIZE then Pass else Fail(IndexOutOfBounds(address))
      ensures memoryArray[..] == Written(old(memoryArray[..]), address, value)
      ensures r.Pass? ==> memoryArray[..] == old(memoryArray[..])[address := value]
      ensures r.Pass? ==> memoryData == old(memoryData)[address := NewEntry(address, value)]
      ensures r.Fail? ==> memoryArray[..] == old(memoryArray[..]) && memoryData == old(memoryData)
    {
      if address < 0 || address >= MEMORY_SIZE {
        return Fail(IndexOutOfBounds(address));
      }
      memoryArray[address] := value;
      if address < |memoryData| {
        UpdateValueOfEntry(memoryData[address], address, value);
        memoryData := memoryData[address := UpdateValue(memoryData[address], value)];
      }
      r := Pass;
    }

    /** `read(address)`: the stored word, or the exception for an address outside 0..4095. */
    method Read(address: Int32) returns (r: Result<Int32, MemoryError>)
      requires Valid()
      ensures r == ReadAt(memoryArray[..], address)
      ensures r == if 0 <= address < MEMORY_SIZE then Success(memoryArray[address]) else Failure(IndexOutOfBounds(address))
    {
      if address < 0 || address >= MEMORY_SIZE {
        return Failure(IndexOutOfBounds(address));
      }
      r := Success(memoryArray[address]);
    }

    /** `clearMemory`: every word back to 0 and every row refreshed. */
    method ClearMemory()
      requires Valid()
      modifies this, memoryArray
      ensures Valid()
      ensures memoryArray[..] == ZeroWords(MEMORY_SIZE)
    {
      ghost var cells := memoryArray[..];
      forall i | 0 <= i < memoryArray.Length {
        memoryArray[i] := 0;
      }
      var refreshed := RefreshRows(memoryData, 0);
      RefreshedRows(memoryData, cells, refreshed, 0);
      memoryData := refreshed;
      assert memoryArray[..] == seq(MEMORY_SIZE, _ => 0 as Int32);
    }
  }
}
