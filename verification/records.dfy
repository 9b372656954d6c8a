/**
 * The values the reconciliation engine moves between the raw enrollment
 * folders, the encoded store and the index, and the exceptions it can raise.
 */
module Records {

  /** A JSON value as read from a `user.json` profile document. */
  datatype Value =
    | Str(s: string)
    | Number(n: real)
    | Bool(b: bool)
    | Null
    | List(items: seq<Value>)
    | Dict(fields: map<string, Value>)

  /** A profile document: the key/value pairs of one `user.json`. */
  type Profile = map<string, Value>

  /** The number a `bool` stands for in Python arithmetic and comparisons. */
  function BoolNumber(b: bool): real {
    if b then 1.0 else 0.0
  }

  /**
   * Python's `==` on the objects `json.load` builds: `True == 1` and
   * `False == 0.0`, lists compare element by element, dicts compare by
   * key set and by the value under each key.
   */
  predicate ValueEq(a: Value, b: Value)
    decreases a
  {
    match a
    case Str(s) => b.Str? && b.s == s
    case Number(n) => (b.Number? && b.n == n) || (b.Bool? && BoolNumber(b.b) == n)
    case Bool(x) => (b.Bool? && b.b == x) || (b.Number? && b.n == BoolNumber(x))
    case Null => b.Null?
    case List(xs) =>
      b.List? && |xs| == |b.items| && forall i :: 0 <= i < |xs| ==> ValueEq(xs[i], b.items[i])
    case Dict(fs) =>
      b.Dict? && fs.Keys == b.fields.Keys && forall k :: k in fs ==> ValueEq(fs[k], b.fields[k])
  }

  /** Python's `==` on two profile dicts. */
  predicate ProfileEq(p: Profile, q: Profile) {
    p.Keys == q.Keys && forall k :: k in p ==> ValueEq(p[k], q[k])
  }

  /** Every JSON value equals itself. */
  lemma {:induction false} ValueEqReflexive(v: Value)
    ensures ValueEq(v, v)
    decreases v
  {
    match v
    case List(xs) =>
      forall i | 0 <= i < |xs| ensures ValueEq(xs[i], xs[i]) {
        ValueEqReflexive(xs[i]);
      }
    case Dict(fs) =>
      forall k | k in fs ensures ValueEq(fs[k], fs[k]) {
        ValueEqReflexive(fs[k]);
      }
    case _ =>
  }

  /** Every profile equals itself. */
  lemma ProfileEqReflexive(p: Profile)
    ensures ProfileEq(p, p)
  {
    forall k | k in p ensures ValueEq(p[k], p[k]) {
      ValueEqReflexive(p[k]);
    }
  }

  /** Python's `==` on JSON values is symmetric. */
  lemma {:induction false} ValueEqSymmetric(a: Value, b: Value)
    requires ValueEq(a, b)
    ensures ValueEq(b, a)
    decreases a
  {
    match a
    case List(xs) =>
      forall i | 0 <= i < |xs| ensures ValueEq(b.items[i], xs[i]) {
        ValueEqSymmetric(xs[i], b.items[i]);
      }
    case Dict(fs) =>
      forall k | k in b.fields ensures ValueEq(b.fields[k], fs[k]) {
        ValueEqSymmetric(fs[k], b.fields[k]);
      }
    case _ =>
  }

  /** `{"admin": 1}` and `{"admin": true}` are equal profiles, though different values. */
  lemma BoolEqualsOne()
    ensures ProfileEq(map["admin" := Number(1.0)], map["admin" := Bool(true)])
    ensures map["admin" := Number(1.0)] != map["admin" := Bool(true)]
  {
    assert map["admin" := Number(1.0)]["admin"] != map["admin" := Bool(true)]["admin"];
  }

  /** A face encoding; the floating-point components are kept opaque. */
  type Vector = seq<int>

  /** The bytes of a `face.jpg` reference image. */
  type Image = seq<bv8>

  /** The `encoding` field of a pickled user: a numpy array or some other object. */
  datatype Encoding = NdArray(values: Vector) | NotAnArray

  /** One file of `database/encoded/users`: the pickled dict {'user_data', 'encoding'}. */
  datatype Entry = Entry(userData: Profile, encoding: Encoding)

  /** One enrollment folder of `database/raw`: its `user.json` and its `face.jpg`. */
  datatype Folder = Folder(profile: Profile, image: Image)

  /**
   * The file `database/encoded/meta.pkl`: missing, empty (loading it stops at
   * end of file), a pickled metadata dict holding `pre_encoded`, or bytes
   * the unpickler rejects.
   */
  datatype MetaFile = Absent | Empty | Pickled(preEncoded: map<string, string>) | Malformed

  /** The exceptions the core raises. */
  datatype Error =
    | FileNotFound(name: string)    // open or os.remove of a file that is not there
    | KeyMissing(key: string)       // KeyError from looking up an absent dict key
    | NameNotStr                    // KeyError raised when user_data['name'] is not a str
    | NotNdArray                    // TypeError raised when the encoding is not an ndarray
    | AttributeExists(attr: string) // AttributeError raised on an attribute clash
    | NoFaceFound(folder: string)   // IndexError from taking [0] of an empty list of encodings
    | UnpicklingError               // pickle.load on a malformed meta.pkl
}
