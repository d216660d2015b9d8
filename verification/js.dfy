/**
 * The few JavaScript value semantics the exam editor relies on: optional
 * values, object keys that may be missing or hold `undefined`, the object
 * spread `{...a, ...b}`, string truthiness, `String.fromCharCode`, and a
 * `TypeError` thrown by reading a property of `undefined`.
 */
module Js {

  /** A JavaScript value that is either `undefined` or a `T`. */
  datatype Option<+T> = None | Some(value: T)

  /** The outcome of an event handler: a value, or a thrown `TypeError`. */
  datatype Result<+T> = Ok(value: T) | TypeError

  /**
   * One key of a JavaScript object: the key is missing, the key is present
   * and holds `undefined`, or the key holds a value.
   */
  datatype Slot<+T> = Absent | Undefined | Val(v: T) {

    /** Reading `obj.key`: a missing key and an `undefined` one read alike. */
    function Read(): Option<T> {
      if Val? then Some(v) else None
    }
  }

  /** One key of `{...a, ...b}`: `b` wins whenever it has the key, even when it holds `undefined`. */
  function SpreadKey<T>(a: Slot<T>, b: Slot<T>): Slot<T> {
    if b.Absent? then a else b
  }

  /** One key of a merge patch whose keys carry plain values. */
  function PatchKey<T>(a: T, b: Option<T>): T {
    if b.Some? then b.value else a
  }

  /** `{ key: obj.key }`: the key is present afterwards, holding `undefined` if `obj` lacked it. */
  function Keyed<T>(s: Slot<T>): Slot<T> {
    if s.Absent? then Undefined else s
  }

  /** Truthiness of a value that is `undefined` or a string. */
  predicate Truthy(s: Option<string>) {
    s.Some? && s.value != ""
  }

  /** Truthiness of a string-valued key. */
  predicate TruthyKey(s: Slot<string>) {
    Truthy(s.Read())
  }

  /** The string shown for a string-valued key: React renders `undefined` as nothing. */
  function Shown(s: Slot<string>): string {
    if s.Val? then s.v else ""
  }

  /**
   * `String.fromCharCode(code)`: the UTF-16 code unit `code mod 2^16`.
   * A lone surrogate cannot be a Dafny `char`; it is shown as U+FFFD.
   */
  function FromCharCode(code: nat): (c: char)
    ensures code < 0xD800 ==> c as int == code
  {
    var unit := code % 0x1_0000;
    if 0xD800 <= unit < 0xE000 then '\U{FFFD}' else unit as char
  }
}
