/** The small part of the Java runtime that the exercise solutions rely on: the exceptions they
    throw (as error values), nullable results, 32-bit `int` arithmetic and `StringBuilder`. */
module Runtime {

  /** The exception classes thrown by the modelled code. */
  datatype Exception = IllegalArgument | NoSuchElement

  /** A call that either returns a value or throws. */
  datatype Result<+T> = Ok(value: T) | Err(error: Exception)

  /** A reference that may be `null`. */
  datatype Option<+T> = None | Some(value: T)

  const INT_MIN: int := -0x8000_0000
  const INT_MAX: int := 0x7fff_ffff

  /** Java's `int`. */
  type Int32 = x: int | INT_MIN <= x <= INT_MAX

  /** The value Java's `int` arithmetic produces for the exact result `x`: two's-complement wrap-around. */
  function Wrap32(x: int): (r: Int32)
    ensures INT_MIN <= x <= INT_MAX ==> r == x
  {
    if INT_MIN <= x <= INT_MAX then x else (x - INT_MIN) % 0x1_0000_0000 + INT_MIN
  }

  /** Wrap-around keeps the value modulo 2^32: it is the one `int` congruent to the exact result. */
  lemma Wrap32Congruent(x: int)
    ensures (x - Wrap32(x)) % 0x1_0000_0000 == 0
  {
  }

  /** No other `int` is congruent to `x`, so Wrap32 is the only choice. */
  lemma Wrap32Unique(x: int, y: Int32)
    requires (x - y) % 0x1_0000_0000 == 0
    ensures y == Wrap32(x)
  {
    Wrap32Congruent(x);
    var w := Wrap32(x);
    assert (y - w) % 0x1_0000_0000 == 0 by {
      assert y - w == (x - w) - (x - y);
    }
    assert -0x1_0000_0000 < y - w < 0x1_0000_0000;
  }

  /** `java.lang.StringBuilder`, reduced to the text it holds. */
  class StringBuilder {
    var contents: string

    constructor ()
      ensures contents == []
    {
      contents := [];
    }

    method Append(s: string)
      modifies this
      ensures contents == old(contents) + s
    {
      contents := contents + s;
    }
  }

  /** `java.util.HashSet`, reduced to the elements it holds. */
  class HashSet<T(==)> {
    var elements: set<T>

    constructor ()
      ensures elements == {}
    {
      elements := {};
    }

    method Add(x: T)
      modifies this
      ensures elements == old(elements) + {x}
    {
      elements := elements + {x};
    }
  }
}
