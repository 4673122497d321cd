/** Type-erased values as the container stores them, their runtime type
    identity, and the two errors a typed read can report. */
module DynValues {

  newtype int32 = x: int | -0x8000_0000 <= x < 0x8000_0000
  newtype int64 = x: int | -0x8000_0000_0000_0000 <= x < 0x8000_0000_0000_0000

  /** The runtime identity of a concrete type (what `downcast_ref` compares).
      The six types with generated wrappers, `&str`, and any other type,
      which is told apart by `id` (its `TypeId`); its reported name need
      not be unique. */
  datatype TypeTag = TString | TStr | TF32 | TF64 | TI32 | TI64 | TBool | TOther(id: nat, name: string)

  /** The name `type_name::<T>()` reports for a type. */
  function TypeName(t: TypeTag): string
  {
    match t
    case TString => "alloc::string::String"
    case TStr => "&str"
    case TF32 => "f32"
    case TF64 => "f64"
    case TI32 => "i32"
    case TI64 => "i64"
    case TBool => "bool"
    case TOther(_, n) => n
  }

  /** A value behind a `Box<dyn Any>`. Floating-point payloads are kept as
      their bit patterns and never interpreted; a value of any other type is
      an opaque token together with its type's identity and name. */
  datatype Dyn =
    | DString(text: string)
    | DStr(text: string)
    | DF32(bits32: bv32)
    | DF64(bits64: bv64)
    | DI32(i32: int32)
    | DI64(i64: int64)
    | DBool(b: bool)
    | DOther(typeId: nat, typeName: string, token: nat)

  /** The concrete type of a stored value; fixed when the value is boxed. */
  function TypeOf(d: Dyn): TypeTag
  {
    match d
    case DString(_) => TString
    case DStr(_) => TStr
    case DF32(_) => TF32
    case DF64(_) => TF64
    case DI32(_) => TI32
    case DI64(_) => TI64
    case DBool(_) => TBool
    case DOther(i, n, _) => TOther(i, n)
  }

  /** `ArgData`: the owning wrapper around one boxed value. */
  datatype ArgData = ArgData(inner: Dyn)

  datatype DynArgError = NoSuchArg(name: string) | NotOfType(name: string)

  datatype Result<+T> = Ok(value: T) | Err(error: DynArgError)

  /** The typed read of a stored value: it yields the value exactly when the
      requested type is the stored one (no coercion), and otherwise reports
      the REQUESTED type's name. */
  function ReadAs(d: ArgData, t: TypeTag): (r: Result<Dyn>)
    ensures r.Ok? <==> TypeOf(d.inner) == t
    ensures r.Ok? ==> r.value == d.inner
    ensures r.Err? ==> r.error == NotOfType(TypeName(t))
  {
    if TypeOf(d.inner) == t then Ok(d.inner) else Err(NotOfType(TypeName(t)))
  }

  // The typed result of a read at one of the six wrapper types.

  function AsString(r: Result<Dyn>): Result<string>
    requires r.Ok? ==> TypeOf(r.value) == TString
  {
    match r
    case Ok(v) => Ok(v.text)
    case Err(e) => Err(e)
  }

  function AsF32(r: Result<Dyn>): Result<bv32>
    requires r.Ok? ==> TypeOf(r.value) == TF32
  {
    match r
    case Ok(v) => Ok(v.bits32)
    case Err(e) => Err(e)
  }

  function AsF64(r: Result<Dyn>): Result<bv64>
    requires r.Ok? ==> TypeOf(r.value) == TF64
  {
    match r
    case Ok(v) => Ok(v.bits64)
    case Err(e) => Err(e)
  }

  function AsI32(r: Result<Dyn>): Result<int32>
    requires r.Ok? ==> TypeOf(r.value) == TI32
  {
    match r
    case Ok(v) => Ok(v.i32)
    case Err(e) => Err(e)
  }

  function AsI64(r: Result<Dyn>): Result<int64>
    requires r.Ok? ==> TypeOf(r.value) == TI64
  {
    match r
    case Ok(v) => Ok(v.i64)
    case Err(e) => Err(e)
  }

  function AsBool(r: Result<Dyn>): Result<bool>
    requires r.Ok? ==> TypeOf(r.value) == TBool
  {
    match r
    case Ok(v) => Ok(v.b)
    case Err(e) => Err(e)
  }
}
