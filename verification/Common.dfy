/** The entities SyncopateDB stores, and the values their fields hold. */
module Common {

  datatype Option<+T> = None | Some(value: T)

  /** The Go integer types a stored value can have; Int is the 64-bit `int`. */
  datatype IntKind = Int | Int8 | Int16 | Int32 | Int64 | Uint | Uint8 | Uint16 | Uint32 | Uint64

  /** A dynamically typed field value. Rounding of floats is not modelled. */
  datatype Value =
    | Null
    | Bool(b: bool)
    | Whole(kind: IntKind, n: int)
    | Float32(r: real)
    | Float64(r: real)
    | Str(s: string)
    | Time(t: int)
    | Arr(elems: seq<Value>)
    | Obj(members: map<string, Value>)

  type Fields = map<string, Value>

  datatype FieldType =
    | TBoolean | TDate | TDateTime | TString | TText | TJson | TInteger | TFloat | TArray | TObject
    | TUnknown(name: string)

  datatype IdGenerator = AutoIncrement | Uuid | Cuid | Custom | UnknownGenerator(name: string) | Unspecified

  datatype FieldDefinition = FieldDefinition(
    name: string, typ: FieldType, indexed: bool, required: bool, nullable: bool, internal: bool, unique: bool)

  datatype EntityDefinition = EntityDefinition(name: string, fields: seq<FieldDefinition>, idGenerator: IdGenerator)

  datatype Entity = Entity(id: string, typ: string, fields: Fields)

  /** How the Go library prints and parses what this model does not look inside. Every theorem holds for all of them. */
  datatype Formats = Formats(
    rfc3339: int -> string,
    json: Value -> string,
    floatV: Value -> string,
    floatG: Value -> string,
    isTime: string -> bool,
    isJson: string -> bool)

  datatype Error =
    | EntityTypeExists
    | EntityTypeNotFound
    | InvalidId
    | ValidationFailed
    | UniqueViolation
    | AlreadyExists
    | NotFound
    | PersistenceFailed
    | IncompatibleSchema
    | IdGenerationFailed

  datatype Outcome = Done | Failed(error: Error)

  const CREATED_AT := "_created_at"
  const UPDATED_AT := "_updated_at"

  predicate Reserved(name: string) {
    |name| > 0 && name[0] == '_'
  }

  predicate Distinct<T(==)>(s: seq<T>) {
    forall i, j :: 0 <= i < j < |s| ==> s[i] != s[j]
  }

  /** The sequence without its first occurrence of x. */
  function RemoveFirst<T(==)>(s: seq<T>, x: T): seq<T> {
    if s == [] then [] else if s[0] == x then s[1..] else [s[0]] + RemoveFirst(s[1..], x)
  }

  lemma {:induction false} RemoveFirstAt<T>(s: seq<T>, i: nat)
    requires i < |s| && s[i] !in s[..i]
    ensures RemoveFirst(s, s[i]) == s[..i] + s[i + 1..]
  {
    if i == 0 {
    } else {
      assert s[0] in s[..i] && s[1..][..i - 1] == s[..i][1..];
      RemoveFirstAt(s[1..], i - 1);
      assert s[..i] + s[i + 1..] == [s[0]] + (s[1..][..i - 1] + s[1..][i..]);
    }
  }

  lemma {:induction false} RemoveFirstAbsent<T>(s: seq<T>, x: T)
    requires x !in s
    ensures RemoveFirst(s, x) == s
  {
    if s == [] {
    } else {
      assert s[0] in s && s == [s[0]] + s[1..];
      RemoveFirstAbsent(s[1..], x);
    }
  }

  lemma {:induction false} RemoveFirstRemoves<T>(s: seq<T>, x: T)
    requires Distinct(s)
    ensures Distinct(RemoveFirst(s, x))
    ensures forall y :: y in RemoveFirst(s, x) <==> y in s && y != x
    ensures |RemoveFirst(s, x)| == |s| - (if x in s then 1 else 0)
  {
    if s == [] {
    } else {
      assert s == [s[0]] + s[1..];
      assert Distinct(s[1..]);
      assert s[0] !in s[1..];
      if s[0] != x {
        RemoveFirstRemoves(s[1..], x);
      }
    }
  }

  /** Two lists without duplicates that have the same elements are permutations of each other. */
  lemma {:induction false} SameElements<T>(a: seq<T>, b: seq<T>)
    requires Distinct(a) && Distinct(b) && forall x :: x in a <==> x in b
    ensures multiset(a) == multiset(b)
  {
    forall x ensures multiset(a)[x] == multiset(b)[x] {
      CountDistinct(a, x);
      CountDistinct(b, x);
    }
  }

  lemma {:induction false} CountDistinct<T>(a: seq<T>, x: T)
    requires Distinct(a)
    ensures multiset(a)[x] == if x in a then 1 else 0
  {
    if a == [] {
    } else {
      assert a == [a[0]] + a[1..];
      CountDistinct(a[1..], x);
    }
  }

  lemma RemoveThenPut<K, V>(m: map<K, V>, k: K, v: V)
    ensures (m - {k})[k := v] == m[k := v]
  {
  }

  lemma SplitLast<T>(s: seq<T>)
    requires s != []
    ensures s == s[..|s| - 1] + [s[|s| - 1]]
    ensures forall x :: x in s <==> x in s[..|s| - 1] || x == s[|s| - 1]
    ensures Distinct(s) ==> Distinct(s[..|s| - 1]) && s[|s| - 1] !in s[..|s| - 1]
  {
  }

  lemma OverlayMinus<K, V>(a: map<K, V>, b: map<K, V>, keys: set<K>)
    ensures (a + b) - keys == (a - keys) + (b - keys)
  {
  }

  lemma PutThenRemove<K, V>(m: map<K, V>, k: K, v: V)
    requires k !in m
    ensures m[k := v] - {k} == m
  {
  }

  lemma PutSame<K, V>(m: map<K, V>, k: K)
    requires k in m
    ensures m[k := m[k]] == m
  {
  }

  lemma PutTwice<K, V>(m: map<K, V>, k: K, v1: V, v2: V)
    ensures m[k := v1][k := v2] == m[k := v2]
  {
  }
}
