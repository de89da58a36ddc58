/**
 * The growable output buffer of mini_settings_stringbuf.c: a byte array
 * `data` of length `capacity` whose first `size` bytes are the contents.
 * Growth replaces the array by a larger one (at least 2 * capacity + 1);
 * the doubling keeps the total copying of a run of appends linear in the
 * bytes appended, a cost bound that is not proved here.
 */
module StringBuffer {

  /** The capacity ensure_capacity settles on: unchanged if `needed` fits, else max(2 * capacity + 1, needed). */
  function GrownCapacity(capacity: nat, needed: nat): (r: nat)
    ensures r >= capacity && r >= needed
    ensures capacity >= needed ==> r == capacity
    ensures capacity < needed ==> r > 2 * capacity && (r == 2 * capacity + 1 || r == needed)
  {
    if capacity >= needed then capacity
    else if 2 * capacity + 1 < needed then needed
    else 2 * capacity + 1
  }

  /** memcpy into `dst` at offset `at`: `src` lands there and the bytes before and after it are kept. */
  method MemCpy(dst: array<char>, at: nat, src: seq<char>)
    requires at + |src| <= dst.Length
    modifies dst
    ensures dst[..at] == old(dst[..at])
    ensures dst[at..at + |src|] == src
    ensures dst[at + |src|..] == old(dst[at + |src|..])
  {
    var k := 0;
    while k < |src|
      invariant 0 <= k <= |src|
      invariant dst[..at] == old(dst[..at])
      invariant dst[at..at + k] == src[..k]
      invariant dst[at + k..] == old(dst[at + k..])
    {
      dst[at + k] := src[k];
      k := k + 1;
    }
  }

  class StringBuf {
    var data: array<char>
    var size: nat
    var capacity: nat

    /** The bytes appended so far. */
    ghost var Contents: seq<char>

    ghost predicate Valid()
      reads this, data
    {
      && data.Length == capacity
      && size <= capacity
      && Contents == data[..size]
    }

    /** mini_settings_stringbuf_init: an empty buffer holding `capacity` bytes (0 allowed). */
    constructor (capacity: nat)
      ensures Valid() && fresh(data)
      ensures Contents == [] && size == 0 && this.capacity == capacity
    {
      data := new char[capacity];
      size := 0;
      this.capacity := capacity;
      Contents := [];
    }

    /**
     * ensure_capacity: nothing changes when `needed` already fits; otherwise
     * the array is replaced by one of max(2 * capacity + 1, needed) bytes that
     * starts with the whole old array (realloc keeps the old block).
     */
    method EnsureCapacity(needed: nat)
      requires Valid()
      modifies this
      ensures Valid()
      ensures Contents == old(Contents) && size == old(size)
      ensures capacity >= needed
      ensures old(capacity) >= needed ==> capacity == old(capacity) && data == old(data)
      ensures old(capacity) < needed ==>
                && capacity == GrownCapacity(old(capacity), needed)
                && fresh(data)
                && data[..old(capacity)] == old(data[..])
    {
      if capacity >= needed {
        return;
      }
      var newCapacity := 2 * capacity + 1;
      if newCapacity < needed {
        newCapacity := needed;
      }
      var newData := new char[newCapacity];
      var i := 0;
      while i < capacity
        invariant data == old(data) && size == old(size) && Contents == old(Contents)
        invariant Valid() && capacity == old(capacity) && capacity < newCapacity
        invariant newData.Length == newCapacity
        invariant 0 <= i <= capacity
        invariant newData[..i] == data[..i]
      {
        newData[i] := data[i];
        i := i + 1;
      }
      assert newData[..capacity] == data[..];
      assert newData[..size] == data[..size];
      data := newData;
      capacity := newCapacity;
    }

    /** mini_settings_stringbuf_append: the contents become the old contents followed by `str`. */
    method Append(str: seq<char>)
      requires Valid()
      modifies this, data
      ensures Valid()
      ensures Contents == old(Contents) + str
      ensures size == old(size) + |str|
      ensures capacity == GrownCapacity(old(capacity), old(size) + |str|)
      ensures data == old(data) || fresh(data)
    {
      EnsureCapacity(size + |str|);
      MemCpy(data, size, str);
      assert data[..size + |str|] == data[..size] + data[size..size + |str|];
      size := size + |str|;
      Contents := Contents + str;
    }

    /** mini_settings_stringbuf_append_line: `str` and then one '\n' are appended. */
    method AppendLine(str: seq<char>)
      requires Valid()
      modifies this, data
      ensures Valid()
      ensures Contents == old(Contents) + str + ['\n']
      ensures size == old(size) + |str| + 1
      ensures capacity == GrownCapacity(old(capacity), old(size) + |str| + 1)
      ensures data == old(data) || fresh(data)
    {
      EnsureCapacity(size + |str| + 1);
      MemCpy(data, size, str);
      assert data[..size + |str|] == data[..size] + data[size..size + |str|];
      ghost var copied := data[..size + |str|];
      data[size + |str|] := '\n';
      assert data[..size + |str| + 1] == copied + ['\n'];
      size := size + |str| + 1;
      Contents := Contents + str + ['\n'];
    }

    /** mini_settings_stringbuf_append_char: one byte is appended. */
    method AppendChar(c: char)
      requires Valid()
      modifies this, data
      ensures Valid()
      ensures Contents == old(Contents) + [c]
      ensures size == old(size) + 1
      ensures capacity == GrownCapacity(old(capacity), old(size) + 1)
      ensures data == old(data) || fresh(data)
    {
      EnsureCapacity(size + 1);
      data[size] := c;
      size := size + 1;
      Contents := Contents + [c];
    }
  }
}
