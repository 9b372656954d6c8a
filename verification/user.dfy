/**
 * `Database.User`: a validated in-memory record built from a pickled user.
 * The Python class is a list of the encoding's components whose profile
 * fields are attached as attributes; here the attributes are a map.
 */
module UserRecord {
  import opened Wrappers
  import opened Records

  /** A user record: the attributes set from its profile and its face vector. */
  datatype User = User(attrs: Profile, vector: Vector)

  /**
   * The attribute names a fresh `Database.User` instance already has when
   * the profile fields are attached: those of a `list` subclass instance
   * (Python 3.11), the class's own `get_data`, and `available_attrs`,
   * which is assigned just before the fields.
   */
  const Reserved: set<string> := {
    "available_attrs", "get_data",
    "append", "clear", "copy", "count", "extend", "index", "insert",
    "pop", "remove", "reverse", "sort",
    "__add__", "__class__", "__class_getitem__", "__contains__",
    "__delattr__", "__delitem__", "__dict__", "__dir__", "__doc__",
    "__eq__", "__format__", "__ge__", "__getattribute__", "__getitem__",
    "__getstate__", "__gt__", "__hash__", "__iadd__", "__imul__",
    "__init__", "__init_subclass__", "__iter__", "__le__", "__len__",
    "__lt__", "__module__", "__mul__", "__ne__", "__new__", "__reduce__",
    "__reduce_ex__", "__repr__", "__reversed__", "__rmul__",
    "__setattr__", "__setitem__", "__sizeof__", "__str__",
    "__subclasshook__", "__weakref__"
  }

  /** The user the constructor builds from a pickled entry it accepts. */
  function UserOf(e: Entry): User
    requires e.encoding.NdArray?
  {
    User(e.userData, e.encoding.values)
  }

  /** The profile has a `name` whose type is exactly `str`. */
  predicate HasStrName(userData: Profile) {
    "name" in userData && userData["name"].Str?
  }

  /** `key` already names an attribute of a freshly created `User`. */
  predicate IsReserved(key: string) {
    key in Reserved
  }

  /** The constructor accepts these arguments. */
  predicate Constructible(userData: Profile, encoding: Encoding) {
    HasStrName(userData) && encoding.NdArray? && forall key :: key in userData ==> !IsReserved(key)
  }

  /**
   * The constructor: checks the name, then the encoding, then attaches the
   * profile fields one by one, refusing any that clashes with an existing
   * attribute.
   */
  method NewUser(userData: Profile, encoding: Encoding) returns (r: Result<User, Error>)
    ensures r.Success? <==> Constructible(userData, encoding)
    ensures "name" !in userData ==> r == Failure(KeyMissing("name"))
    ensures "name" in userData && !userData["name"].Str? ==> r == Failure(NameNotStr)
    ensures HasStrName(userData) && !encoding.NdArray? ==> r == Failure(NotNdArray)
    ensures r.Failure? && r.error.AttributeExists? ==>
              r.error.attr in userData && IsReserved(r.error.attr)
    ensures r.Success? ==> r.value.attrs == userData && r.value.vector == encoding.values
  {
    if "name" !in userData {
      return Failure(KeyMissing("name"));
    }
    if !userData["name"].Str? {
      return Failure(NameNotStr);
    }
    if !encoding.NdArray? {
      return Failure(NotNdArray);
    }
    var attrs: Profile := map[];
    var rest := userData.Keys;
    while rest != {}
      invariant rest <= userData.Keys
      invariant attrs.Keys == userData.Keys - rest
      invariant forall k :: k in attrs ==> attrs[k] == userData[k] && !IsReserved(k)
      decreases rest
    {
      var attr :| attr in rest;
      if IsReserved(attr) || attr in attrs {
        return Failure(AttributeExists(attr));
      }
      attrs := attrs[attr := userData[attr]];
      rest := rest - {attr};
    }
    return Success(User(attrs, encoding.values));
  }

  /** `get_data`: reads back every attribute named in `available_attrs`. */
  method GetData(user: User) returns (data: Profile)
    ensures data == user.attrs
  {
    data := map[];
    var rest := user.attrs.Keys;
    while rest != {}
      invariant rest <= user.attrs.Keys
      invariant data.Keys == user.attrs.Keys - rest
      invariant forall k :: k in data ==> data[k] == user.attrs[k]
      decreases rest
    {
      var key :| key in rest;
      data := data[key := user.attrs[key]];
      rest := rest - {key};
    }
  }
}
