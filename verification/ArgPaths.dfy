/** Places in argument trees. A place in a call is a path: the index of an argument, then the index of a member,
    or 0 for the option of a union and for what a pointer points to. */
module ArgPaths {
  import opened ProgTypes

  type Path = seq<nat>

  /** The part of an object at a path; pointers are not followed. */
  function Part(a: Arg, p: Path): Option<Arg>
    decreases p
  {
    if p == [] then Some(a)
    else if a.GroupArg? && p[0] < |a.inner| then Part(a.inner[p[0]], p[1..])
    else if a.UnionArg? && p[0] == 0 then Part(a.option, p[1..])
    else None
  }

  /** How many bytes of the object lie in front of that part. */
  function Offset(tgt: Target, a: Arg, p: Path): nat
    requires Part(a, p).Some?
    decreases p
  {
    if p == [] then 0
    else if a.GroupArg? then SizeSum(tgt, a.inner[..p[0]]) + Offset(tgt, a.inner[p[0]], p[1..])
    else Offset(tgt, a.option, p[1..])
  }

  /** The argument at a path through members and pointers. */
  function Reach(a: Arg, p: Path): Option<Arg>
    decreases p
  {
    if p == [] then Some(a)
    else if a.GroupArg? && p[0] < |a.inner| then Reach(a.inner[p[0]], p[1..])
    else if a.UnionArg? && p[0] == 0 then Reach(a.option, p[1..])
    else if a.PointerArg? && a.res.Some? && p[0] == 0 then Reach(a.res.value, p[1..])
    else None
  }

  /** The same from the arguments of a call. */
  function ReachArgs(args: seq<Arg>, p: Path): Option<Arg> {
    if p != [] && p[0] < |args| then Reach(args[p[0]], p[1..]) else None
  }
}
