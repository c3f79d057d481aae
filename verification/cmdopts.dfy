/**
 * The command-line option matcher of src/cmd/cmd_opts.h. A `cmd_opts<opts>` object is an
 * `opts` record (here: its fields by name) plus a map from option names to callbacks; the
 * callback registered under `name` for a member pointer `prop` fires at argv index idx when
 * argv[idx] is exactly `name`, and then reads argv[idx + 1] into the member, if there is such
 * a token. `parse` runs every callback at every index, the program name at index 0 and the
 * value tokens included.
 *
 * The member pointer becomes the field's name and the variant alternative it was registered
 * as; the `std::stringstream` extraction becomes a parameter `convert(kind, token, old)`: the
 * value `value >> this->*arg` leaves in a field of that kind that held `old`.
 */
module CmdOpts {

  /** The alternative of `my_prop` the member pointer was registered as. */
  datatype FieldKind = StringField | IntField | DoubleField | BoolField

  /** A value held by a field of the options record. */
  datatype FieldValue = StringValue(s: string) | IntValue(i: int) | DoubleValue(d: real) | BoolValue(b: bool)

  /** `my_prop`: which member of the options record an option writes, and as what. */
  datatype Prop = Prop(field: string, kind: FieldKind)

  /** The stream extraction `value << token; value >> member;` for a member of the given kind
      that held `old`. */
  type Convert = (FieldKind, string, FieldValue) -> FieldValue

  /** Every registered option writes a member the options record has: what the member
      pointers' types guarantee. */
  predicate FieldsExist(fields: map<string, FieldValue>, callbacks: map<string, Prop>) {
    forall name :: name in callbacks ==> callbacks[name].field in fields
  }

  /** The callbacks map after registering `args` in order: `callbacks[name] = ...` replaces an
      earlier callback of the same name. */
  function Registered(args: seq<(string, Prop)>): map<string, Prop> {
    if |args| == 0 then map[]
    else Registered(args[..|args| - 1])[args[|args| - 1].0 := args[|args| - 1].1]
  }

  /** The effect of the callback registered as (name, prop) at index idx. */
  function Fire(fields: map<string, FieldValue>, name: string, prop: Prop, argv: seq<string>,
                idx: int, convert: Convert): map<string, FieldValue>
    requires 0 <= idx < |argv| && prop.field in fields
  {
    if argv[idx] == name && idx < |argv| - 1 then
      fields[prop.field := convert(prop.kind, argv[idx + 1], fields[prop.field])]
    else fields
  }

  /** The effect of running every callback at index idx: only the one registered under
      argv[idx], if any, can fire. */
  function Apply(fields: map<string, FieldValue>, callbacks: map<string, Prop>, argv: seq<string>,
                 idx: int, convert: Convert): map<string, FieldValue>
    requires 0 <= idx < |argv| && FieldsExist(fields, callbacks)
  {
    if argv[idx] in callbacks then Fire(fields, argv[idx], callbacks[argv[idx]], argv, idx, convert)
    else fields
  }

  /** The fields after `parse` has visited indices 0 .. n - 1. */
  function ParsePrefix(fields: map<string, FieldValue>, callbacks: map<string, Prop>,
                       argv: seq<string>, n: int, convert: Convert): (result: map<string, FieldValue>)
    requires 0 <= n <= |argv| && FieldsExist(fields, callbacks)
    ensures result.Keys == fields.Keys
    ensures FieldsExist(result, callbacks)
  {
    if n == 0 then fields
    else Apply(ParsePrefix(fields, callbacks, argv, n - 1, convert), callbacks, argv, n - 1, convert)
  }

  /** Whether the option at index k writes field f: argv[k] is a registered name for f and a
      value token follows it. */
  predicate Writes(callbacks: map<string, Prop>, argv: seq<string>, k: int, f: string) {
    0 <= k < |argv| - 1 && argv[k] in callbacks && callbacks[argv[k]].field == f
  }

  class Options {
    /** The `opts` base object, member by member. */
    var fields: map<string, FieldValue>
    /** `callbacks`: the property each option name was last registered with. */
    var callbacks: map<string, Prop>

    predicate Valid()
      reads this
    {
      FieldsExist(fields, callbacks)
    }

    /** The private default constructor: the options record with its default members and no
        callbacks. */
    constructor (defaults: map<string, FieldValue>)
      ensures fields == defaults && callbacks == map[]
      ensures Valid()
    {
      fields := defaults;
      callbacks := map[];
    }

    /** register_callback(name, prop). */
    method RegisterCallback(name: string, prop: Prop)
      requires Valid() && prop.field in fields
      modifies this
      ensures fields == old(fields)
      ensures callbacks == old(callbacks)[name := prop]
      ensures Valid()
    {
      callbacks := callbacks[name := prop];
    }

    /** `create(args)`: a fresh object with default members and one callback per argument. */
    static method Create(defaults: map<string, FieldValue>, args: seq<(string, Prop)>)
      returns (c: Options)
      requires forall k :: 0 <= k < |args| ==> args[k].1.field in defaults
      ensures fresh(c)
      ensures c.fields == defaults && c.callbacks == Registered(args)
      ensures c.Valid()
    {
      c := new Options(defaults);
      var i := 0;
      while i < |args|
        invariant 0 <= i <= |args|
        invariant c.fields == defaults && c.callbacks == Registered(args[..i])
        invariant c.Valid()
      {
        c.RegisterCallback(args[i].0, args[i].1);
        assert args[..i + 1][..i] == args[..i];
        i := i + 1;
      }
      assert args[..i] == args;
    }

    /** The callback registered under `name`, called with (idx, argv). */
    method Invoke(name: string, idx: int, argv: seq<string>, convert: Convert)
      requires Valid() && name in callbacks && 0 <= idx < |argv|
      modifies this
      ensures callbacks == old(callbacks)
      ensures fields == Fire(old(fields), name, callbacks[name], argv, idx, convert)
      ensures Valid()
    {
      var prop := callbacks[name];
      if argv[idx] == name {
        if idx < |argv| - 1 {
          fields := fields[prop.field := convert(prop.kind, argv[idx + 1], fields[prop.field])];
        }
      }
    }

    /** One pass of the inner loop of `parse`: every registered callback at index idx. */
    method RunCallbacks(idx: int, argv: seq<string>, convert: Convert)
      requires Valid() && 0 <= idx < |argv|
      modifies this
      ensures callbacks == old(callbacks)
      ensures fields == Apply(old(fields), callbacks, argv, idx, convert)
      ensures Valid()
    {
      var pending := callbacks.Keys;
      while pending != {}
        invariant pending <= callbacks.Keys
        invariant callbacks == old(callbacks) && Valid()
        invariant fields == if argv[idx] in callbacks && argv[idx] !in pending
                            then Apply(old(fields), callbacks, argv, idx, convert)
                            else old(fields)
        decreases |pending|
      {
        var name :| name in pending;
        Invoke(name, idx, argv, convert);
        pending := pending - {name};
      }
    }

    /** parse(argc, argv): every index, the program name included, then a copy of the
        options record. */
    method Parse(argv: seq<string>, convert: Convert) returns (result: map<string, FieldValue>)
      requires Valid()
      modifies this
      ensures callbacks == old(callbacks)
      ensures fields == ParsePrefix(old(fields), callbacks, argv, |argv|, convert)
      ensures result == fields
      ensures Valid()
    {
      var i := 0;
      while i < |argv|
        invariant 0 <= i <= |argv|
        invariant callbacks == old(callbacks) && Valid()
        invariant fields == ParsePrefix(old(fields), callbacks, argv, i, convert)
      {
        RunCallbacks(i, argv, convert);
        i := i + 1;
      }
      result := fields;
    }
  }

  // ---------------------------------------------------------------------------------------
  // Registration

  /** The registered names are exactly the names of the arguments. */
  lemma {:induction false} RegisteredNames(args: seq<(string, Prop)>)
    ensures forall name :: name in Registered(args) <==> exists k :: 0 <= k < |args| && args[k].0 == name
    decreases |args|
  {
    if |args| > 0 {
      var front := args[..|args| - 1];
      RegisteredNames(front);
      forall name | name in Registered(args)
        ensures exists k :: 0 <= k < |args| && args[k].0 == name
      {
        if name != args[|args| - 1].0 {
          assert name in Registered(front);
          var k :| 0 <= k < |front| && front[k].0 == name;
          assert args[k].0 == name;
        }
      }
      forall name, k | 0 <= k < |args| && args[k].0 == name
        ensures name in Registered(args)
      {
        if k < |front| {
          assert front[k].0 == name;
        }
      }
    }
  }

  /** Registering a name twice keeps only the last property: the callback of a name is the one
      of its last registration. */
  lemma {:induction false} LastRegistrationWins(args: seq<(string, Prop)>, k: int)
    requires 0 <= k < |args|
    requires forall j :: k < j < |args| ==> args[j].0 != args[k].0
    ensures args[k].0 in Registered(args) && Registered(args)[args[k].0] == args[k].1
    decreases |args|
  {
    if k < |args| - 1 {
      var front := args[..|args| - 1];
      assert front[k] == args[k];
      LastRegistrationWins(front, k);
    }
  }

  // ---------------------------------------------------------------------------------------
  // Parsing

  /** A field no option writes keeps its default value. */
  lemma {:induction false} UnwrittenFieldKeepsDefault(fields: map<string, FieldValue>,
                                                      callbacks: map<string, Prop>, argv: seq<string>,
                                                      n: int, convert: Convert, f: string)
    requires 0 <= n <= |argv| && FieldsExist(fields, callbacks) && f in fields
    requires forall k :: 0 <= k < n ==> !Writes(callbacks, argv, k, f)
    ensures ParsePrefix(fields, callbacks, argv, n, convert)[f] == fields[f]
    decreases n
  {
    if n > 0 {
      UnwrittenFieldKeepsDefault(fields, callbacks, argv, n - 1, convert, f);
      assert !Writes(callbacks, argv, n - 1, f);
    }
  }

  /** Once the last option writing f has been read, f stays as that option left it. */
  lemma {:induction false} LaterOptionsKeepField(fields: map<string, FieldValue>,
                                                 callbacks: map<string, Prop>, argv: seq<string>,
                                                 m: int, n: int, convert: Convert, f: string)
    requires 0 <= m <= n <= |argv| && FieldsExist(fields, callbacks) && f in fields
    requires forall k :: m <= k < n ==> !Writes(callbacks, argv, k, f)
    ensures ParsePrefix(fields, callbacks, argv, n, convert)[f] ==
            ParsePrefix(fields, callbacks, argv, m, convert)[f]
    decreases n - m
  {
    if m < n {
      LaterOptionsKeepField(fields, callbacks, argv, m, n - 1, convert, f);
      assert !Writes(callbacks, argv, n - 1, f);
    }
  }

  /** The last occurrence of an option for f wins: after the whole parse f holds the value read
      from the token after that occurrence, whatever earlier occurrences wrote. */
  lemma LastOccurrenceWins(fields: map<string, FieldValue>, callbacks: map<string, Prop>,
                           argv: seq<string>, convert: Convert, f: string, last: int)
    requires FieldsExist(fields, callbacks) && f in fields
    requires Writes(callbacks, argv, last, f)
    requires forall k :: last < k < |argv| ==> !Writes(callbacks, argv, k, f)
    ensures var before := ParsePrefix(fields, callbacks, argv, last, convert);
            ParsePrefix(fields, callbacks, argv, |argv|, convert)[f] ==
            convert(callbacks[argv[last]].kind, argv[last + 1], before[f])
  {
    LaterOptionsKeepField(fields, callbacks, argv, last + 1, |argv|, convert, f);
  }

  /** An option name in the last position has no value token after it and changes nothing. */
  lemma FlagAtEndChangesNothing(fields: map<string, FieldValue>, callbacks: map<string, Prop>,
                                argv: seq<string>, convert: Convert)
    requires |argv| >= 1 && FieldsExist(fields, callbacks)
    ensures ParsePrefix(fields, callbacks, argv, |argv|, convert) ==
            ParsePrefix(fields, callbacks, argv, |argv| - 1, convert)
  {
  }

  /** Writing a field leaves every other field as it was. */
  lemma {:induction false} OnlyWrittenFieldsChange(fields: map<string, FieldValue>,
                                                   callbacks: map<string, Prop>, argv: seq<string>,
                                                   n: int, convert: Convert, f: string)
    requires 0 <= n <= |argv| && FieldsExist(fields, callbacks) && f in fields
    requires ParsePrefix(fields, callbacks, argv, n, convert)[f] != fields[f]
    ensures exists k :: 0 <= k < n && Writes(callbacks, argv, k, f)
  {
    if forall k :: 0 <= k < n ==> !Writes(callbacks, argv, k, f) {
      UnwrittenFieldKeepsDefault(fields, callbacks, argv, n, convert, f);
    }
  }

  /** Index 0 is scanned too: a program name equal to an option name reads argv[1] into that
      option's field. */
  lemma ProgramNameIsScanned(fields: map<string, FieldValue>, callbacks: map<string, Prop>,
                             argv: seq<string>, convert: Convert)
    requires |argv| >= 2 && FieldsExist(fields, callbacks) && argv[0] in callbacks
    ensures var p := callbacks[argv[0]];
            ParsePrefix(fields, callbacks, argv, 1, convert) ==
            fields[p.field := convert(p.kind, argv[1], fields[p.field])]
  {
  }

  /** A value token is scanned as an option in its turn: in `prog a b v` with options a and b
      for different fields, a is read from the token "b" and b from v. */
  lemma ValueTokenIsScannedAgain(fields: map<string, FieldValue>, a: string, pa: Prop, b: string,
                                 pb: Prop, v: string, prog: string, convert: Convert)
    requires a != b && pa.field != pb.field && pa.field in fields && pb.field in fields
    requires prog != a && prog != b && v != a && v != b
    ensures var callbacks := map[a := pa, b := pb];
            var result := ParsePrefix(fields, callbacks, [prog, a, b, v], 4, convert);
            result[pa.field] == convert(pa.kind, b, fields[pa.field]) &&
            result[pb.field] == convert(pb.kind, v, fields[pb.field])
  {
    var callbacks := map[a := pa, b := pb];
    var argv := [prog, a, b, v];
    assert FieldsExist(fields, callbacks);
    assert argv[0] == prog && prog !in callbacks;
    assert ParsePrefix(fields, callbacks, argv, 0, convert) == fields;
    var after0 := ParsePrefix(fields, callbacks, argv, 1, convert);
    assert after0 == Apply(fields, callbacks, argv, 0, convert) == fields;
    var after1 := ParsePrefix(fields, callbacks, argv, 2, convert);
    assert after1 == fields[pa.field := convert(pa.kind, b, fields[pa.field])];
    var after2 := ParsePrefix(fields, callbacks, argv, 3, convert);
    assert after2 == after1[pb.field := convert(pb.kind, v, after1[pb.field])];
  }
}
