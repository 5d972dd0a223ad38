/** Paths of the ramfs: the component parser of `src/vfs.rs`. */
module RamfsPath {
  import opened Common

  const MAX_PATH := 256
  const MAX_COMPONENTS := 16
  const NAME_MAX := 31

  type Name = seq<byte>

  datatype Error =
    | AlreadyExists
    | Busy
    | InvalidHandle
    | InvalidPath
    | IsDirectory
    | NameTooLong
    | NoSpace
    | NotDirectory
    | NotEmpty
    | NotFound
    | OffsetOutOfRange
    | PermissionDenied

  const SLASH: byte := 47
  const DOT: byte := 46

  /** Where the component that starts at `at` ends. */
  function EndOf(path: seq<byte>, at: nat): (end: nat)
    requires at <= |path|
    ensures at <= end <= |path| && (end < |path| ==> path[end] == SLASH)
    ensures forall k :: at <= k < end ==> path[k] != SLASH
    decreases |path| - at
  {
    if at == |path| || path[at] == SLASH then at else EndOf(path, at + 1)
  }

  /** The names so far, once one more component has been read. */
  function Take(names: seq<Name>, part: Name): Result<seq<Name>, Error> {
    if 0 in part then Err(InvalidPath)
    else if part == [DOT] then Ok(names)
    else if part == [DOT, DOT] then Ok(names[..Max(0, |names| - 1)])
    else if |part| > NAME_MAX then Err(NameTooLong)
    else if |names| == MAX_COMPONENTS then Err(InvalidPath)
    else Ok(names + [part])
  }

  function ParseFrom(path: seq<byte>, at: nat, names: seq<Name>): Result<seq<Name>, Error>
    requires at <= |path|
    decreases |path| - at
  {
    if at == |path| then Ok(names)
    else if path[at] == SLASH then ParseFrom(path, at + 1, names)
    else
      var end := EndOf(path, at + 1);
      match Take(names, path[at..end])
      case Err(e) => Err(e)
      case Ok(next) => ParseFrom(path, end, next)
  }

  function Parse(path: seq<byte>): Result<seq<Name>, Error> {
    if path == [] || path[0] != SLASH || |path| > MAX_PATH then Err(InvalidPath) else ParseFrom(path, 1, [])
  }

  method ParsePath(path: seq<byte>) returns (r: Result<seq<Name>, Error>)
    ensures r == Parse(path)
  {
    if path == [] || path[0] != SLASH || |path| > MAX_PATH {
      return Err(InvalidPath);
    }
    var names: seq<Name>, at := [], 1;
    while at < |path|
      invariant 1 <= at <= |path|
      invariant Parse(path) == ParseFrom(path, at, names)
    {
      at := SkipSlashes(path, at, names);
      if at == |path| {
        break;
      }
      var end, clean := ScanPart(path, at);
      if !clean {
        return Err(InvalidPath);
      }
      var next := Take(names, path[at..end]);
      if next.Err? {
        return Err(next.error);
      }
      names, at := next.value, end;
    }
    return Ok(names);
  }

  method SkipSlashes(path: seq<byte>, at: nat, ghost names: seq<Name>) returns (start: nat)
    requires at <= |path|
    ensures at <= start <= |path| && (start < |path| ==> path[start] != SLASH)
    ensures ParseFrom(path, at, names) == ParseFrom(path, start, names)
  {
    start := at;
    while start < |path| && path[start] == SLASH
      invariant at <= start <= |path|
      invariant ParseFrom(path, at, names) == ParseFrom(path, start, names)
    {
      start := start + 1;
    }
  }

  /** Runs to the end of a component, stopping early at a NUL byte. */
  method ScanPart(path: seq<byte>, at: nat) returns (end: nat, clean: bool)
    requires at < |path| && path[at] != SLASH
    ensures clean <==> 0 !in path[at..EndOf(path, at + 1)]
    ensures clean ==> end == EndOf(path, at + 1)
  {
    end := at;
    ghost var goal := EndOf(path, at + 1);
    assert goal == EndOf(path, at);
    while end < |path| && path[end] != SLASH
      invariant at <= end <= goal && EndOf(path, end) == goal
      invariant 0 !in path[at..end]
    {
      if path[end] == 0 {
        assert path[at..goal][end - at] == 0;
        return end, false;
      }
      end := end + 1;
    }
    return end, true;
  }

  // ------------------------------------------------------------------ what a path means

  /** A name that a directory can hold. */
  predicate Proper(name: Name) {
    1 <= |name| <= NAME_MAX && name != [DOT] && name != [DOT, DOT] && 0 !in name && SLASH !in name
  }

  ghost predicate AllProper(names: seq<Name>) { forall k :: 0 <= k < |names| ==> Proper(names[k]) }

  lemma {:induction false} ParsedNamesAreProper(path: seq<byte>, at: nat, names: seq<Name>)
    requires at <= |path| && AllProper(names) && |names| <= MAX_COMPONENTS && ParseFrom(path, at, names).Ok?
    ensures AllProper(ParseFrom(path, at, names).value) && |ParseFrom(path, at, names).value| <= MAX_COMPONENTS
    decreases |path| - at
  {
    if at < |path| {
      if path[at] == SLASH {
        ParsedNamesAreProper(path, at + 1, names);
      } else {
        var end := EndOf(path, at + 1);
        ParsedNamesAreProper(path, end, Take(names, path[at..end]).value);
      }
    }
  }

  /** The path that spells out the names. */
  function Spell(names: seq<Name>): seq<byte> {
    if names == [] then [] else [SLASH] + names[0] + Spell(names[1..])
  }

  /** Parsing what was spelled gives the names back. */
  lemma {:induction false} SpellParses(before: seq<byte>, done: seq<Name>, names: seq<Name>)
    requires AllProper(names) && |done| + |names| <= MAX_COMPONENTS
    ensures ParseFrom(before + Spell(names), |before|, done) == Ok(done + names)
    decreases |names|
  {
    var path := before + Spell(names);
    if names == [] {
      assert done + names == done;
    } else {
      var name, rest := names[0], names[1..];
      var at := |before| + 1;
      var end := at + |name|;
      assert path == (before + [SLASH] + name) + Spell(rest);
      assert path[at..end] == name;
      EndIs(path, at + 1, end);
      assert name != [] && path[at] == name[0];
      SpellParses(before + [SLASH] + name, done + [name], rest);
      assert done + names == done + [name] + rest;
    }
  }

  lemma {:induction false} EndIs(path: seq<byte>, at: nat, end: nat)
    requires at <= end <= |path| && (end < |path| ==> path[end] == SLASH)
    requires forall k :: at <= k < end ==> path[k] != SLASH
    ensures EndOf(path, at) == end
    decreases end - at
  {
    if at < end {
      EndIs(path, at + 1, end);
    }
  }

  lemma ParseRoundTrip(names: seq<Name>)
    requires AllProper(names) && 1 <= |names| <= MAX_COMPONENTS && |Spell(names)| <= MAX_PATH
    ensures Parse(Spell(names)) == Ok(names)
  {
    SpellParses([], [], names);
    assert [] + Spell(names) == Spell(names) && [] + names == names;
  }
}
