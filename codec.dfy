/**
 * The value codec of the node exporter: `serialize_value` turns a host
 * property value into something JSON can hold, and `restore_value` turns a
 * JSON value back into what is handed to the host's attribute setter.
 */
module Codec {
  import opened Wrappers

  /** A JSON value as `json.dump` writes it and `json.load` reads it back. */
  datatype Value =
    | Null
    | Int(i: int)
    | Real(r: real)
    | Str(s: string)
    | Bool(b: bool)
    | List(items: seq<Value>)

  /**
   * A property value as the host hands it out. Floats are opaque: they are
   * only copied, never computed with.
   */
  datatype HostValue =
    | HInt(i: int)
    | HFloat(f: real)
    | HStr(s: string)
    | HBool(b: bool)
    | HSequence(items: seq<Value>)              // a property array, a tuple or a list
    | HVector(coords: seq<real>)
    | HEuler(angles: seq<real>)
    | HColor(red: real, green: real, blue: real, alpha: Option<real>)
    | HOther                                    // None, an ID pointer, a matrix, ...

  predicate IsPrimitive(h: HostValue) {
    h.HInt? || h.HFloat? || h.HStr? || h.HBool?
  }

  function Reals(xs: seq<real>): (vs: seq<Value>)
    ensures |vs| == |xs|
    ensures forall k :: 0 <= k < |xs| ==> vs[k] == Real(xs[k])
  {
    seq(|xs|, k requires 0 <= k < |xs| => Real(xs[k]))
  }

  /**
   * serialize_value: sequences, vectors and Euler angles become plain lists,
   * a colour becomes [r, g, b, a] with a missing alpha read as 1.0,
   * primitives pass through and anything else becomes Null ("omit").
   */
  function Serialize(h: HostValue): (v: Value)
    ensures v.Null? <==> h.HOther?
    ensures h.HColor? ==> v.List? && |v.items| == 4
    ensures h.HColor? ==> v.items[0] == Real(h.red) && v.items[1] == Real(h.green) && v.items[2] == Real(h.blue)
    ensures h.HColor? && h.alpha.Some? ==> v.items[3] == Real(h.alpha.value)
    ensures h.HColor? && h.alpha.None? ==> v.items[3] == Real(1.0)
  {
    match h
    case HSequence(items) => List(items)
    case HVector(coords) => List(Reals(coords))
    case HEuler(angles) => List(Reals(angles))
    case HColor(red, green, blue, alpha) => List([Real(red), Real(green), Real(blue), Real(alpha.GetOr(1.0))])
    case HInt(i) => Int(i)
    case HFloat(f) => Real(f)
    case HStr(s) => Str(s)
    case HBool(b) => Bool(b)
    case HOther => Null
  }

  /** The Python object `json.load` produces for a JSON value; serialising it gives the JSON value back. */
  function FromJson(v: Value): (h: HostValue)
    ensures Serialize(h) == v
  {
    match v
    case Null => HOther
    case Int(i) => HInt(i)
    case Real(r) => HFloat(r)
    case Str(s) => HStr(s)
    case Bool(b) => HBool(b)
    case List(items) => HSequence(items)
  }

  /**
   * The numbers of a JSON list, as the mathutils constructors read them
   * (a boolean is the number 0 or 1); None if any item is not a number.
   */
  function Numbers(items: seq<Value>): (r: Option<seq<real>>)
    ensures r.Some? <==> forall k :: 0 <= k < |items| ==> items[k].Int? || items[k].Real? || items[k].Bool?
    ensures r.Some? ==> |r.value| == |items|
    ensures r.Some? ==> forall k :: 0 <= k < |items| && items[k].Real? ==> r.value[k] == items[k].r
    ensures r.Some? ==> forall k :: 0 <= k < |items| && items[k].Int? ==> r.value[k] == items[k].i as real
    ensures r.Some? ==> forall k :: 0 <= k < |items| && items[k].Bool? ==> r.value[k] == (if items[k].b then 1.0 else 0.0)
  {
    if |items| == 0 then Some([])
    else
      var head: Option<real> := match items[0]
        case Int(i) => Some(i as real)
        case Real(x) => Some(x)
        case Bool(b) => Some(if b then 1.0 else 0.0)
        case _ => None;
      match (head, Numbers(items[1..]))
      case (Some(x), Some(rest)) => Some([x] + rest)
      case _ => None
  }

  /**
   * What restore_value hands to the setter for a property whose current value
   * is `current`: a vector, Euler or colour property is rebuilt by its own
   * constructor (Vector takes two or more numbers, Euler and Color exactly
   * three), anything else gets the loaded value as is. None: the constructor
   * raised, and restore_value swallows the exception.
   */
  function Rewrap(current: HostValue, v: Value): (r: Option<HostValue>)
    ensures !(current.HVector? || current.HEuler? || current.HColor?) ==> r == Some(FromJson(v))
    ensures current.HVector? ==> (r.Some? <==> v.List? && Numbers(v.items).Some? && |v.items| >= 2)
    ensures current.HEuler? || current.HColor? ==> (r.Some? <==> v.List? && Numbers(v.items).Some? && |v.items| == 3)
    ensures r.Some? && current.HVector? ==> r.value.HVector? && r.value.coords == Numbers(v.items).value
    ensures r.Some? && current.HEuler? ==> r.value.HEuler? && r.value.angles == Numbers(v.items).value
    ensures r.Some? && current.HColor? ==>
      r.value == HColor(Numbers(v.items).value[0], Numbers(v.items).value[1], Numbers(v.items).value[2], None)
  {
    var numbers := if v.List? then Numbers(v.items) else None;
    match current
    case HVector(_) =>
      if numbers.Some? && |numbers.value| >= 2 then Some(HVector(numbers.value)) else None
    case HEuler(_) =>
      if numbers.Some? && |numbers.value| == 3 then Some(HEuler(numbers.value)) else None
    case HColor(_, _, _, _) =>
      if numbers.Some? && |numbers.value| == 3
      then Some(HColor(numbers.value[0], numbers.value[1], numbers.value[2], None))
      else None
    case _ => Some(FromJson(v))
  }

  /** Primitives come back unchanged, and sequences as lists with the same items in the same order. */
  lemma PrimitivesAndSequencesRoundTrip(h: HostValue)
    requires IsPrimitive(h) || h.HSequence?
    ensures FromJson(Serialize(h)) == h
    ensures h.HSequence? ==> Serialize(h) == List(h.items)
  {
  }

  /** A list serialised from reals reads back as the same reals. */
  lemma {:induction false} NumbersOfReals(xs: seq<real>)
    ensures Numbers(Reals(xs)) == Some(xs)
  {
    if |xs| > 0 {
      assert Reals(xs)[1..] == Reals(xs[1..]);
      NumbersOfReals(xs[1..]);
      assert [xs[0]] + xs[1..] == xs;
    }
  }

  /** A vector or an Euler rotation is rebuilt exactly from its own serialisation. */
  lemma VectorAndEulerRestore(current: HostValue, h: HostValue)
    requires (current.HVector? && h.HVector? && |h.coords| >= 2) || (current.HEuler? && h.HEuler? && |h.angles| == 3)
    ensures Rewrap(current, Serialize(h)) == Some(h)
  {
    if h.HVector? { NumbersOfReals(h.coords); } else { NumbersOfReals(h.angles); }
  }

  /** A colour is serialised with four components, which Color's constructor refuses: it is not restored from them. */
  lemma ColourIsNotRestored(current: HostValue, h: HostValue)
    requires current.HColor? && h.HColor?
    ensures Rewrap(current, Serialize(h)) == None
  {
  }

  /** The first three items of a colour's serialisation rebuild its red, green and blue, without alpha. */
  lemma ColourFromItsComponents(current: HostValue, h: HostValue)
    requires current.HColor? && h.HColor?
    ensures Rewrap(current, List(Serialize(h).items[..3])) == Some(HColor(h.red, h.green, h.blue, None))
  {
    var rgb := [h.red, h.green, h.blue];
    assert Serialize(h).items[..3] == Reals(rgb);
    NumbersOfReals(rgb);
  }
}
