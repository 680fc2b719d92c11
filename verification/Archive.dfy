/**
  Archive of src/net4cxx/common/serialization/archive.h: a buffer that values are appended to, a position that
  reading advances, and the mode that a struct's serialize method goes by.
*/
module Archives {
  import opened Basics
  import opened ByteConvert
  import opened ArchiveFormat

  datatype ArchiveMode = WriteMode | ReadMode

  /** What reading returns, or throws. */
  datatype Result<+T> = Ok(value: T) | Err(error: ArchiveError)
  {
    predicate IsFailure() { Err? }

    function PropagateFailure<U>(): Result<U>
      requires Err?
    {
      Err(error)
    }

    function Extract(): T
      requires Ok?
    {
      value
    }
  }

  /** What a read that returns r must have done, given what the bytes say: also where it stopped. */
  ghost predicate Agrees<T(!new)>(d: Outcome<T>, r: Result<T>, rest: bytes) {
    rest == d.rest && r == match d case Read(v, _) => Ok(v) case Failed(x, _) => Err(x)
  }

  class Archive {
    const order: ByteOrder
    const host: Endian
    var mode: ArchiveMode
    var pos: nat
    var storage: bytes

    constructor (order: ByteOrder, host: Endian)
      ensures this.order == order && this.host == host && Valid() && storage == [] && pos == 0 && mode == WriteMode
    {
      this.order, this.host := order, host;
      mode, pos, storage := WriteMode, 0, [];
    }

    constructor Of(order: ByteOrder, host: Endian, data: bytes)
      ensures this.order == order && this.host == host && Valid() && storage == data && pos == 0 && mode == ReadMode
    {
      this.order, this.host := order, host;
      mode, pos, storage := ReadMode, 0, data;
    }

    ghost predicate Valid()
      reads this
    {
      pos <= |storage|
    }

    function E(): Endian { WireOrder(order, host) }

    ghost function Rest(): bytes
      reads this
      requires Valid()
    {
      storage[pos..]
    }

    // ----- writing -----

    method Append(src: bytes)
      requires Valid()
      modifies `storage
      ensures Valid() && storage == old(storage) + src
    {
      storage := storage + src;
    }

    /** The conversion of ByteConvert, and the memory of the result. */
    method AppendUInt(n: nat, width: nat)
      requires Valid()
      modifies `storage
      ensures Valid() && storage == old(storage) + Bytes(n, width, E())
    {
      Append(Bytes(n, width, E()));
    }

    /** The memory of a float or a double, without conversion. */
    method AppendReal(bits: nat, width: nat)
      requires Valid()
      modifies `storage
      ensures Valid() && storage == old(storage) + Bytes(bits, width, host)
    {
      Append(Bytes(bits, width, host));
    }

    method AppendByte(c: byte)
      requires Valid()
      modifies `storage
      ensures Valid() && storage == old(storage) + [c]
    {
      Append([c]);
    }

    method AppendLength(len: nat)
      requires Valid()
      modifies `storage
      ensures Valid() && storage == old(storage) + EncodeLength(E(), len)
    {
      if len >= ESCAPE {
        AppendByte(ESCAPE);
        AppendUInt(len, 4);
      } else {
        AppendByte(len);
      }
    }

    /** operator<<, by the type of the operand. */
    method Write(t: Type, v: Val)
      requires Valid() && HasType(t, v)
      modifies `storage, `mode
      ensures Valid() && storage == old(storage) + Encode(E(), host, t, v) && mode == old(mode)
      decreases t, 0
    {
      hide Bytes, EncodeLength, EncodeItems, ItemsTyped, Unique;
      match t {
        case TUInt(w) => AppendUInt(v.i, w);
        case TInt(w) =>
          SignedInverse(v.i, w);
          AppendUInt(Unsigned(v.i, w), w);
        case TBool => AppendByte(if v.b then 1 else 0);
        case TString =>
          AppendLength(|v.s|);
          Append(v.s);
        case TFloat | TDouble => AppendReal(v.bits, RealWidth(t));
        case TRaw(_) => Append(v.s);
        case TOptional(u) =>
          if v.VSome? {
            AppendByte(1);
            Write(u, v.v);
          } else {
            AppendByte(0);
          }
        case TStruct(ts) =>
          var saved := mode;
          mode := WriteMode;
          Serialize(ts, v.fields);
          mode := saved;
        case _ =>
          AppendLength(|v.items|);
          AppendItems(t.elem, v.items);
      }
    }

    /** The loop of appendSequence, appendSet and appendMapping. */
    method AppendItems(t: Type, vs: seq<Val>)
      requires Valid() && ItemsTyped(t, vs)
      modifies `storage, `mode
      ensures Valid() && storage == old(storage) + EncodeItems(E(), host, t, vs) && mode == old(mode)
      decreases t, 1
    {
      hide Encode, HasType;
      assert vs[0..] == vs;
      for i := 0 to |vs|
        invariant Valid() && mode == old(mode)
        invariant storage + EncodeItems(E(), host, t, vs[i..]) == old(storage) + EncodeItems(E(), host, t, vs)
      {
        assert vs[i..][0] == vs[i] && vs[i..][1..] == vs[i + 1..];
        Assoc(storage, Encode(E(), host, t, vs[i]), EncodeItems(E(), host, t, vs[i + 1..]));
        Write(t, vs[i]);
      }
      assert vs[|vs|..] == [] && storage + [] == storage;
    }

    /** A serialize method in write mode: operator& on each field. */
    method Serialize(ts: seq<Type>, vs: seq<Val>)
      requires Valid() && mode == WriteMode && AllTyped(ts, vs)
      modifies `storage, `mode
      ensures Valid() && storage == old(storage) + EncodeFields(E(), host, ts, vs) && mode == WriteMode
      decreases ts, 0
    {
      hide Encode, HasType;
      if ts != [] {
        Assoc(storage, Encode(E(), host, ts[0], vs[0]), EncodeFields(E(), host, ts[1..], vs[1..]));
        Write(ts[0], vs[0]);
        Serialize(ts[1..], vs[1..]);
      } else {
        assert storage + [] == storage;
      }
    }

    // ----- reading -----

    /** checkReadOverflow, then the bytes. */
    method ReadBytes(len: nat) returns (r: Result<bytes>)
      requires Valid()
      modifies `pos
      ensures Valid() && Agrees(DecodeBytes(len, old(Rest())), r, Rest())
    {
      if pos + len > |storage| {
        return Err(PositionError);
      }
      var b := storage[pos..pos + len];
      assert storage[pos..][..len] == b && storage[pos..][len..] == storage[pos + len..];
      pos := pos + len;
      r := Ok(b);
    }

    method ReadUInt(width: nat) returns (r: Result<nat>)
      requires Valid()
      modifies `pos
      ensures Valid() && Agrees(DecodeUInt(E(), width, old(Rest())), r, Rest())
    {
      hide Value;
      var b :- ReadBytes(width);
      r := Ok(Value(b, E()));
    }

    /** readReal, and the check that the value is finite. */
    method ReadReal(t: Type) returns (r: Result<Val>)
      requires Valid()
      modifies `pos
      ensures Valid() && Agrees(DecodeReal(host, t, old(Rest())), r, Rest())
    {
      hide Value, IsFinite;
      var b :- ReadBytes(RealWidth(t));
      var bits := Value(b, host);
      r := if IsFinite(t, bits) then Ok(VReal(bits)) else Err(NotFinite);
    }

    method ReadLength() returns (r: Result<nat>)
      requires Valid()
      modifies `pos
      ensures Valid() && Agrees(DecodeLength(E(), old(Rest())), r, Rest())
    {
      hide DecodeUInt;
      r := ReadUInt(1);
      if r == Ok(ESCAPE) {
        r := ReadUInt(4);
      }
    }

    /** operator>>, by the type of the operand. */
    method ReadValue(t: Type) returns (r: Result<Val>)
      requires Valid()
      modifies `pos, `mode
      ensures Valid() && mode == old(mode)
      ensures Agrees(Decode(E(), host, t, old(Rest())), r, Rest())
      decreases t, 0
    {
      hide DecodeUInt, DecodeLength, DecodeBytes, DecodeReal;
      match t {
        case TUInt(w) =>
          var u :- ReadUInt(w);
          r := Ok(VInt(u));
        case TInt(w) =>
          var u :- ReadUInt(w);
          r := Ok(VInt(Signed(u, w)));
        case TBool =>
          var u :- ReadUInt(1);
          r := Ok(VBool(u > 0));
        case TString => r := ReadString();
        case TFloat | TDouble => r := ReadReal(t);
        case TRaw(n) =>
          var s :- ReadBytes(n);
          r := Ok(VBytes(s));
        case TOptional(u) => r := ReadOptional(u);
        case TStruct(ts) =>
          var saved := mode;
          mode := ReadMode;
          var vs := Deserialize(ts);
          mode := saved;
          r := if vs.Err? then Err(vs.error) else Ok(VStruct(vs.value));
        case _ =>
          var vs := ReadItems(t, t.elem);
          r := if vs.Err? then Err(vs.error) else Ok(VItems(vs.value));
      }
    }

    method ReadString() returns (r: Result<Val>)
      requires Valid()
      modifies `pos
      ensures Valid() && Agrees(Decode(E(), host, TString, old(Rest())), r, Rest())
    {
      hide DecodeLength, DecodeBytes;
      var len :- ReadLength();
      var s :- ReadBytes(len);
      r := Ok(VBytes(s));
    }

    method ReadOptional(u: Type) returns (r: Result<Val>)
      requires Valid()
      modifies `pos, `mode
      ensures Valid() && mode == old(mode)
      ensures Agrees(Decode(E(), host, TOptional(u), old(Rest())), r, Rest())
      decreases u, 2
    {
      hide DecodeUInt;
      var has :- ReadUInt(1);
      if has == 0 {
        return Ok(VNone);
      }
      var v :- ReadValue(u);
      r := Ok(VSome(v));
    }

    /** readSequence, readSet and readMapping. */
    method ReadItems(t: Type, elem: Type) returns (r: Result<seq<Val>>)
      requires Valid()
      modifies `pos, `mode
      ensures Valid() && mode == old(mode)
      ensures match DecodeLength(E(), old(Rest()))
        case Failed(x, rest) => r == Err(x) && Rest() == rest
        case Read(n, rest) => Agrees(DecodeItems(E(), host, t, elem, n, [], rest), r, Rest())
      decreases elem, 1
    {
      hide Decode, DecodeLength;
      var len :- ReadLength();
      ghost var start := Rest();
      var result: seq<Val> := [];
      for i := 0 to len
        invariant Valid() && mode == old(mode)
        invariant DecodeItems(E(), host, t, elem, len - i, result, Rest())
          == DecodeItems(E(), host, t, elem, len, [], start)
      {
        var v :- ReadValue(elem);
        result := Emplace(t, result, v);
      }
      r := Ok(result);
    }

    /** A serialize method in read mode. */
    method Deserialize(ts: seq<Type>) returns (r: Result<seq<Val>>)
      requires Valid() && mode == ReadMode
      modifies `pos, `mode
      ensures Valid() && mode == ReadMode
      ensures Agrees(DecodeFields(E(), host, ts, old(Rest())), r, Rest())
      decreases ts, 0
    {
      hide Decode;
      if ts == [] {
        return Ok([]);
      }
      var v :- ReadValue(ts[0]);
      var vs :- Deserialize(ts[1..]);
      r := Ok([v] + vs);
    }

    /** A value written at the end is read back when the position is there, and the position is then at the
        end again, if and only if its reals are finite. */
    method WriteThenRead(t: Type, v: Val) returns (r: Result<Val>)
      requires Valid() && pos == |storage| && HasType(t, v)
      modifies this
      ensures Valid() && mode == old(mode) && storage == old(storage) + Encode(E(), host, t, v)
      ensures if Survives(host, host, t, v) then r == Ok(v) && pos == |storage| else r == Err(NotFinite)
    {
      hide Encode, Decode, Survives;
      Write(t, v);
      ghost var b := Encode(E(), host, t, v);
      assert storage[pos..] == b == b + [];
      RoundTrip(E(), host, host, t, v, []);
      r := ReadValue(t);
    }
  }
}
