/** What SceneEvent::process asks the console to run for a dispatched event. The console
    itself (Con::execute, Namespace::find / lookup) is not part of this model: the result
    names the call that would be made. */
module Commands {
  import opened Events

  /** The console call made for one event. */
  datatype Invocation =
    | OnObject(target: ObjId, argv: seq<string>)               // Con::execute(object, argc, argv)
    | Namespaced(ns: string, fn: string, argv: seq<string>)    // Namespace::find(ns)->lookup(fn)->execute
    | Global(argv: seq<string>)                                // Con::execute(argc, argv)

  /** `s` contains the namespace separator "::" somewhere. */
  predicate HasSeparator(s: string) {
    exists j :: 0 <= j && j + 1 < |s| && s[j] == ':' && s[j + 1] == ':'
  }

  /** Position of the first "::" in `name` (dStrstr), or |name| when there is none. */
  function SeparatorAt(name: string): (k: nat)
    ensures k <= |name|
    ensures k < |name| ==> k + 1 < |name| && name[k] == ':' && name[k + 1] == ':'
    ensures forall j :: 0 <= j < k && j + 1 < |name| ==> !(name[j] == ':' && name[j + 1] == ':')
    ensures k == |name| <==> !HasSeparator(name)
  {
    if |name| < 2 then |name|
    else if name[0] == ':' && name[1] == ':' then 0
    else
      var k := SeparatorAt(name[1..]);
      assert forall j :: 1 <= j < |name| ==> name[j] == name[1..][j - 1];
      1 + k
  }

  /** A namespace-qualified function name, as the caller writes it. */
  function Qualified(ns: string, fn: string): string {
    ns + "::" + fn
  }

  /** A namespace that splitting can give back: no "::" inside and no trailing ':'. */
  predicate PlainNamespace(ns: string) {
    !HasSeparator(ns) && (ns == [] || ns[|ns| - 1] != ':')
  }

  /** Splitting at the first "::" undoes qualification for every namespace splitting can return. */
  lemma {:induction false} SplitQualified(ns: string, fn: string)
    requires PlainNamespace(ns)
    ensures SeparatorAt(Qualified(ns, fn)) == |ns|
    ensures Qualified(ns, fn)[..|ns|] == ns && Qualified(ns, fn)[|ns| + 2..] == fn
  {
    var q := Qualified(ns, fn);
    assert forall j :: 0 <= j < |ns| ==> q[j] == ns[j];
    assert q[|ns|] == ':' && q[|ns| + 1] == ':';
    assert SeparatorAt(q) == |ns|;
    assert q[..|ns|] == ns;
    assert q[|ns| + 2..] == fn;
  }

  /** SceneEvent::process: on an object, the argument vector is run on the target; otherwise the
      first argument is split at its first "::" into a namespace and a function, with the
      namespace left as the call's first argument, or run as a global function when it has none. */
  function Process(e: SceneEvent): (r: Invocation)
    ensures e.command.onObject ==> r == OnObject(e.destObject, e.command.argv)
    ensures r.Namespaced? ==>
      !e.command.onObject && |e.command.argv| > 0 &&
      Qualified(r.ns, r.fn) == e.command.argv[0] && PlainNamespace(r.ns) &&
      r.argv == [r.ns] + e.command.argv[1..]
    ensures r.Global? ==>
      !e.command.onObject && r.argv == e.command.argv &&
      (|r.argv| > 0 ==> !HasSeparator(r.argv[0]))
    ensures !e.command.onObject && |e.command.argv| > 0 && HasSeparator(e.command.argv[0]) ==> r.Namespaced?
    ensures !e.command.onObject && (|e.command.argv| == 0 || !HasSeparator(e.command.argv[0])) ==>
      r == Global(e.command.argv)
  {
    var argv := e.command.argv;
    if e.command.onObject then OnObject(e.destObject, argv)
    else if |argv| == 0 then Global(argv)
    else
      var name := argv[0];
      var k := SeparatorAt(name);
      if k < |name| then
        var ns := name[..k];
        assert name == Qualified(ns, name[k + 2..]);
        assert !HasSeparator(ns) by {
          assert forall j :: 0 <= j < |ns| ==> ns[j] == name[j];
        }
        assert ns == [] || ns[|ns| - 1] != ':' by {
          if ns != [] { assert name[k - 1] == ns[|ns| - 1]; }
        }
        Namespaced(ns, name[k + 2..], [ns] + argv[1..])
      else Global(argv)
  }
}
