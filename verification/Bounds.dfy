/** The user-range checks of kernel/kernel.cc and kernel/kernel.h, on 32-bit words. */
module Bounds {
  import opened Modular

  const USER_MEM_START := 0x8000_0000
  const SHARED_ADDRESS := 0xF000_0000
  const FRAME_SIZE := 4096
  const USER_MEM_END := SHARED_ADDRESS + FRAME_SIZE

  function CheckBounds(base: nat, index: nat, scale: nat, lower: nat, upper: nat): bool
    requires scale > 0
  {
    var scaled := index * scale % WORD;
    if scaled / scale != index then false
    else
      var final := (base + scaled) % WORD;
      if final < base then false else lower <= final < upper
  }

  function ValidateOffset(address: nat, offset: nat, scale: nat): bool
    requires scale > 0
  {
    if offset > 0 && !CheckBounds(address, 0, 1, USER_MEM_START, USER_MEM_END) then false
    else CheckBounds(address, offset, scale, USER_MEM_START, USER_MEM_END)
  }

  /** validate_address<T>(pointer, count) for a T of `size` bytes. */
  function ValidatePointer(address: nat, count: nat, size: nat): bool
    requires size > 0
  {
    && ValidateOffset(address, 0, 1)
    && (count == 0 || ValidateOffset((address + size - 1) % WORD, count - 1, size))
  }

  /** The product comes back from the division exactly when it did not wrap. */
  lemma ScaleOverflow(index: nat, scale: nat)
    requires index < WORD && 0 < scale < WORD
    ensures index * scale % WORD / scale == index <==> index * scale < WORD
    ensures index * scale < WORD ==> index * scale % WORD == index * scale
  {
    var product := index * scale;
    if product < WORD {
      Unique(product, WORD, 0, product);
      Unique(product, scale, index, 0);
    } else {
      var scaled := product % WORD;
      var q := scaled / scale;
      assert scaled == q * scale + scaled % scale;
      assert q == index ==> scaled >= product;
    }
  }

  /** check_bounds is the range check on unbounded numbers. */
  lemma CheckBoundsIff(base: nat, index: nat, scale: nat, lower: nat, upper: nat)
    requires base < WORD && index < WORD && 0 < scale < WORD && upper <= WORD
    ensures CheckBounds(base, index, scale, lower, upper) <==> lower <= base + index * scale < upper
  {
    ScaleOverflow(index, scale);
    if index * scale < WORD {
      var sum := base + index * scale;
      if sum < WORD {
        Unique(sum, WORD, 0, sum);
      } else {
        Unique(sum, WORD, 1, sum - WORD);
      }
    }
  }

  lemma ValidateOffsetIff(address: nat, offset: nat, scale: nat)
    requires address < WORD && offset < WORD && 0 < scale < WORD
    ensures ValidateOffset(address, offset, scale) <==>
            USER_MEM_START <= address + offset * scale < USER_MEM_END && (offset > 0 ==> USER_MEM_START <= address)
  {
    CheckBoundsIff(address, 0, 1, USER_MEM_START, USER_MEM_END);
    CheckBoundsIff(address, offset, scale, USER_MEM_START, USER_MEM_END);
    assert 0 * scale == 0;
    assert offset > 0 ==> offset * scale >= 0;
  }

  /** Byte `b` of element `j` of an array of `size`-byte elements. */
  function ByteAt(address: nat, j: nat, size: nat, b: nat): nat {
    address + j * size + b
  }

  ghost predicate InUser(a: nat) {
    USER_MEM_START <= a < USER_MEM_END
  }

  lemma LastElement(address: nat, count: nat, size: nat)
    requires count > 0 && size > 0
    ensures address + size - 1 + (count - 1) * size == address + count * size - 1
  {
    assert (count - 1) * size == count * size - size;
  }

  lemma ValidatePointerRange(address: nat, count: nat, size: nat)
    requires address < WORD && count < WORD && 0 < size < 0x8000_0000
    ensures ValidatePointer(address, count, size) <==>
            InUser(address) && address + count * size <= USER_MEM_END
  {
    ValidateOffsetIff(address, 0, 1);
    if count == 0 {
      assert 0 * size == 0;
    } else if InUser(address) {
      var last := address + size - 1;
      LastElement(address, count, size);
      Grows(count - 1, size);
      if last < WORD {
        Unique(last, WORD, 0, last);
        ValidateOffsetIff(last, count - 1, size);
      } else {
        Unique(last, WORD, 1, last - WORD);
        Wrapped(last - WORD, count - 1, size);
      }
    }
  }

  lemma Grows(n: nat, size: nat)
    ensures n * size >= 0
  {
  }

  /** A wrapped address is below user memory, so both checks on it fail. */
  lemma Wrapped(low: nat, offset: nat, size: nat)
    requires low < USER_MEM_START && offset < WORD && 0 < size < 0x8000_0000
    ensures !ValidateOffset(low, offset, size)
  {
    ValidateOffsetIff(low, offset, size);
  }

  /** The template accepts exactly the arrays all of whose bytes are in user memory. */
  lemma ValidatePointerIff(address: nat, count: nat, size: nat)
    requires address < WORD && 0 < count < WORD && 0 < size < 0x8000_0000
    ensures ValidatePointer(address, count, size) <==>
            forall j: nat, b: nat :: j < count && b < size ==> InUser(ByteAt(address, j, size, b))
  {
    ValidatePointerRange(address, count, size);
    if InUser(address) && address + count * size <= USER_MEM_END {
      forall j: nat, b: nat | j < count && b < size
        ensures InUser(ByteAt(address, j, size, b))
      {
        Element(j, count, size);
      }
    } else {
      assert ByteAt(address, 0, size, 0) == address by { assert 0 * size == 0; }
      LastElement(address, count, size);
      assert ByteAt(address, count - 1, size, size - 1) == address + count * size - 1;
    }
  }

  lemma Element(j: nat, count: nat, size: nat)
    requires j < count
    ensures j * size + size <= count * size && j * size >= 0
  {
    assert (count - 1 - j) * size >= 0;
    assert (count - 1 - j) * size == count * size - size - j * size;
  }
}
