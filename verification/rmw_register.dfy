/**
 * Read-modify-write operations derived from load-linked / store-conditional,
 * modelled after rmw_register.cpp with single-threaded semantics: no other
 * thread writes the register between two steps, so a store-conditional
 * never loses its reservation.
 */
module RmwRegister {
  import opened MachineWords

  /** A `std::atomic_int`: one shared 32-bit register. */
  class AtomicInt {
    var value: Int32

    constructor (initial: Int32)
      ensures value == initial
    {
      value := initial;
    }
  }

  /** An `int` the caller owns and passes by pointer (`int *expected_value`). */
  class IntCell {
    var value: Int32

    constructor (initial: Int32)
      ensures value == initial
    {
      value := initial;
    }
  }

  /**
   * `std::atomic_int::compare_exchange_strong`, the library primitive the
   * source builds on: it succeeds exactly when the register holds
   * `expected`, and then stores `desired`; `observed` is the value it found
   * (the library writes it back into its `expected` argument on failure).
   */
  method CompareExchangeStrong(x: AtomicInt, expected: Int32, desired: Int32) returns (ok: bool, observed: Int32)
    modifies x
    ensures observed == old(x.value)
    ensures ok <==> old(x.value) == expected
    ensures x.value == if ok then desired else old(x.value)
  {
    observed := x.value;
    if x.value == expected {
      x.value := desired;
      ok := true;
    } else {
      ok := false;
    }
  }

  /** `load_linked`: a plain read of the register. */
  method LoadLinked(x: AtomicInt) returns (v: Int32)
    ensures v == x.value
  {
    v := x.value;
  }

  /**
   * `store_conditional`: read the register, then compare-and-swap against
   * the value just read.  With no other writer the swap always succeeds.
   */
  method StoreConditional(x: AtomicInt, newValue: Int32) returns (stored: bool)
    modifies x
    ensures stored
    ensures x.value == newValue
  {
    var current := x.value;
    var observed;
    stored, observed := CompareExchangeStrong(x, current, newValue);
  }

  /**
   * `atomic_fetch_add`: retry load-linked / store-conditional until the
   * store succeeds; returns the value before the addition.  Signed overflow
   * of `old + arg` is undefined behaviour in C++, so the caller must rule it
   * out.
   */
  method FetchAdd(x: AtomicInt, arg: Int32) returns (previous: Int32)
    requires -0x8000_0000 <= x.value + arg < 0x8000_0000
    modifies x
    ensures previous == old(x.value)
    ensures x.value == old(x.value) + arg
  {
    previous := 0;
    var stored := false;
    while !stored
      invariant !stored ==> x.value == old(x.value)
      invariant stored ==> previous == old(x.value) && x.value == old(x.value) + arg
      decreases if stored then 0 else 1
    {
      previous := LoadLinked(x);
      stored := StoreConditional(x, previous + arg);
    }
  }

  /**
   * `atomic_compare_exchange`: when the register equals `*expected`, store
   * `newValue` and return true, leaving `*expected` alone; otherwise copy
   * the register into `*expected` and return false, leaving the register
   * alone.  It returns false only on a real mismatch, never because a
   * store-conditional failed.
   */
  method CompareExchange(x: AtomicInt, expected: IntCell, newValue: Int32) returns (ok: bool)
    modifies x, expected
    ensures ok <==> old(x.value) == old(expected.value)
    ensures ok ==> x.value == newValue && expected.value == old(expected.value)
    ensures !ok ==> x.value == old(x.value) && expected.value == old(x.value)
  {
    var stored := false;
    while !stored
      invariant !stored ==> x.value == old(x.value) && expected.value == old(expected.value)
      invariant stored ==> old(x.value) == old(expected.value) && x.value == newValue
      invariant expected.value == old(expected.value)
      decreases if stored then 0 else 1
    {
      var current := LoadLinked(x);
      if current != expected.value {
        expected.value := current;
        return false;
      }
      stored := StoreConditional(x, newValue);
    }
    return true;
  }

  /**
   * `load_linked` as the source writes it: the body has no return
   * statement, so the value its caller receives is undefined behaviour in
   * C++ and has nothing to do with the register.  `unspecified` stands for
   * whatever value arrives.
   */
  method LoadLinkedAsWritten(x: AtomicInt, unspecified: Int32) returns (v: Int32)
    ensures v == unspecified
  {
    v := unspecified;
  }

  /**
   * `atomic_fetch_add` over the as-written `load_linked`: the store always
   * succeeds, so the register ends up holding `unspecified + arg` and the
   * call returns `unspecified`, whatever the register held before.
   */
  method FetchAddAsWritten(x: AtomicInt, arg: Int32, unspecified: Int32) returns (previous: Int32)
    requires -0x8000_0000 <= unspecified + arg < 0x8000_0000
    modifies x
    ensures previous == unspecified
    ensures x.value == unspecified + arg
  {
    previous := 0;
    var stored := false;
    while !stored
      invariant stored ==> previous == unspecified && x.value == unspecified + arg
      decreases if stored then 0 else 1
    {
      previous := LoadLinkedAsWritten(x, unspecified);
      stored := StoreConditional(x, previous + arg);
    }
  }

  /**
   * The worked example of `atomic_fetch_add` (3138 plus 10) fails over the
   * as-written `load_linked`: unless the undefined value happens to be
   * 3138, neither the returned value nor the new register value is the
   * documented one.
   */
  method FetchAddAsWrittenExample(unspecified: Int32) returns (returned: Int32, after: Int32)
    requires -0x8000_0000 <= unspecified + 10 < 0x8000_0000
    ensures unspecified != 3138 ==> returned != 3138 && after != 3148
    ensures unspecified == 3138 ==> returned == 3138 && after == 3148
  {
    var x := new AtomicInt(3138);
    returned := FetchAddAsWritten(x, 10, unspecified);
    after := x.value;
  }

  /** The worked example of `atomic_fetch_add`: 3138 plus 10. */
  method FetchAddExample() returns (returned: Int32, after: Int32)
    ensures returned == 3138 && after == 3148
  {
    var x := new AtomicInt(3138);
    returned := FetchAdd(x, 10);
    after := x.value;
  }

  /**
   * The worked examples of `atomic_compare_exchange`: 42 against an
   * expected 42 stores 3148 and succeeds; 3148 against an expected 42 fails
   * and reports 3148 back.
   */
  method CompareExchangeExamples() returns (ok1: bool, register1: Int32, ok2: bool, register2: Int32, expected2: Int32)
    ensures ok1 && register1 == 3148
    ensures !ok2 && register2 == 3148 && expected2 == 3148
  {
    var x := new AtomicInt(42);
    var e := new IntCell(42);
    ok1 := CompareExchange(x, e, 3148);
    register1 := x.value;
    var y := new AtomicInt(3148);
    var f := new IntCell(42);
    ok2 := CompareExchange(y, f, 0);
    register2 := y.value;
    expected2 := f.value;
  }
}
