/** Path strings and the component sequences they name
    (crates/netfilum-server/src/path.rs, nt_path_to_relative in crates/netfilum-client/src/mount.rs). */
module Paths {
  import opened Wrappers

  type Path = seq<string>

  function Parent(p: Path): Path
    requires p != []
  {
    p[..|p| - 1]
  }

  function Base(p: Path): string
    requires p != []
  {
    p[|p| - 1]
  }

  function Child(p: Path, name: string): (q: Path)
    ensures q != [] && Parent(q) == p && Base(q) == name
  {
    p + [name]
  }

  // A name a Linux directory can hold.
  predicate PlainName(name: string) {
    name != "" && name != "." && name != ".." && '/' !in name && '\0' !in name
  }

  // A component the normaliser can produce.
  predicate CleanName(name: string) {
    name != "" && name != "." && name != ".." && '/' !in name && '\\' !in name
  }

  predicate CleanPath(p: Path) {
    forall i :: 0 <= i < |p| ==> CleanName(p[i])
  }

  // ---- Strings and their parts ----

  function Slashed(s: string): (t: string)
    ensures |t| == |s| && '\\' !in t
  {
    seq(|s|, i requires 0 <= i < |s| => if s[i] == '\\' then '/' else s[i])
  }

  function Split(s: string): (parts: seq<string>)
    ensures |parts| >= 1
  {
    if s == "" then [""]
    else
      var rest := Split(s[1..]);
      if s[0] == '/' then [""] + rest else [[s[0]] + rest[0]] + rest[1..]
  }

  function Join(parts: seq<string>): string {
    if parts == [] then ""
    else if |parts| == 1 then parts[0]
    else parts[0] + "/" + Join(parts[1..])
  }

  // The parts of a string cut at either kind of slash.
  function Pieces(s: string): (parts: seq<string>)
    ensures |parts| >= 1
  {
    if s == "" then [""]
    else
      var rest := Pieces(s[1..]);
      if s[0] == '/' || s[0] == '\\' then [""] + rest else [[s[0]] + rest[0]] + rest[1..]
  }

  // What is left once the empty and `.` parts are dropped.
  function Kept(parts: seq<string>): seq<string> {
    if parts == [] then []
    else if parts[0] == "" || parts[0] == "." then Kept(parts[1..])
    else [parts[0]] + Kept(parts[1..])
  }

  // ---- The normaliser ----

  const ABSOLUTE := "absolute paths are not allowed"
  const TRAVERSAL := "path traversal is not allowed"

  predicate IsAbsolute(s: string) {
    s != "" && s[0] == '/'
  }

  // What normalising means: the kept parts, unless the string is absolute or has a `..` part.
  function Normalize(raw: string): Result<Path, string> {
    var s := Slashed(raw);
    if IsAbsolute(s) then Err(ABSOLUTE)
    else if ".." in Kept(Split(s)) then Err(TRAVERSAL)
    else Ok(Kept(Split(s)))
  }

  // The standard library's view of a Unix path: repeated, trailing and inner `.` parts are
  // dropped, a leading `.` is kept as CurDir, and a leading slash is RootDir.
  datatype Component = RootDir | CurDir | ParentDir | Normal(part: string)

  function Body(parts: seq<string>): seq<Component> {
    if parts == [] then []
    else if parts[0] == "" || parts[0] == "." then Body(parts[1..])
    else [if parts[0] == ".." then ParentDir else Normal(parts[0])] + Body(parts[1..])
  }

  function Components(s: string): seq<Component> {
    var parts := Split(s);
    (if IsAbsolute(s) then [RootDir] else if parts[0] == "." then [CurDir] else []) + Body(parts)
  }

  // The clean path a run of components pushes, or None once `..` or the root occurs.
  function Pushed(cs: seq<Component>): Option<Path> {
    if cs == [] then Some([])
    else
      var front := Pushed(cs[..|cs| - 1]);
      if front.None? then None
      else match cs[|cs| - 1]
        case CurDir => front
        case Normal(part) => Some(front.value + [part])
        case _ => None
  }

  lemma {:induction false} PushedAppend(cs: seq<Component>, ds: seq<Component>)
    ensures Pushed(cs + ds) ==
            if Pushed(cs).None? || Pushed(ds).None? then None
            else Some(Pushed(cs).value + Pushed(ds).value)
  {
    if ds == [] {
      assert cs + ds == cs;
      if Pushed(cs).Some? {
        assert Pushed(cs).value + [] == Pushed(cs).value;
      }
    } else {
      var n := |ds| - 1;
      PushedAppend(cs, ds[..n]);
      var all := cs + ds;
      assert all[..|all| - 1] == cs + ds[..n];
      assert all[|all| - 1] == ds[n];
      if Pushed(all).Some? {
        assert Pushed(all).value == Pushed(cs).value + Pushed(ds).value;
      }
    }
  }

  lemma PushedOne(c: Component)
    ensures Pushed([c]) ==
            match c
            case CurDir => Some([])
            case Normal(part) => Some([part])
            case _ => None
  {
    assert [c][..0] == [];
    assert Pushed([c][..0]) == Some([]);
    if c.Normal? {
      assert [] + [c.part] == [c.part];
    }
  }

  lemma {:induction false} PushedBody(parts: seq<string>)
    ensures Pushed(Body(parts)) == if ".." in Kept(parts) then None else Some(Kept(parts))
  {
    if parts != [] {
      PushedBody(parts[1..]);
      if parts[0] != "" && parts[0] != "." {
        var c := if parts[0] == ".." then ParentDir else Normal(parts[0]);
        PushedAppend([c], Body(parts[1..]));
        PushedOne(c);
      }
    }
  }

  lemma ComponentsMeaning(s: string)
    requires !IsAbsolute(s)
    ensures Pushed(Components(s)) == if ".." in Kept(Split(s)) then None else Some(Kept(Split(s)))
  {
    var parts := Split(s);
    PushedBody(parts);
    if parts[0] == "." {
      PushedOne(CurDir);
      PushedAppend([CurDir], Body(parts));
      assert [] + Kept(parts) == Kept(parts);
    } else {
      assert [] + Body(parts) == Body(parts);
    }
  }

  lemma PushedPrefix(cs: seq<Component>, i: nat)
    requires i <= |cs| && Pushed(cs[..i]).None?
    ensures Pushed(cs).None?
  {
    assert cs == cs[..i] + cs[i..];
    PushedAppend(cs[..i], cs[i..]);
  }

  lemma PushedNext(cs: seq<Component>, i: nat)
    requires i < |cs|
    ensures Pushed(cs[..i + 1]) ==
            if Pushed(cs[..i]).None? then None
            else match cs[i]
              case CurDir => Pushed(cs[..i])
              case Normal(part) => Some(Pushed(cs[..i]).value + [part])
              case _ => None
  {
    assert cs[..i + 1][..i] == cs[..i];
  }

  method NormalizeRelativePath(raw: string) returns (r: Result<Path, string>)
    ensures r == Normalize(raw)
  {
    var normalized := Slashed(raw);
    if IsAbsolute(normalized) {
      return Err(ABSOLUTE);
    }
    ComponentsMeaning(normalized);
    var components := Components(normalized);
    var pushed := PushComponents(components);
    return if pushed.Some? then Ok(pushed.value) else Err(TRAVERSAL);
  }

  // The loop over the components of a relative path.
  method PushComponents(components: seq<Component>) returns (r: Option<Path>)
    ensures r == Pushed(components)
  {
    var clean: Path := [];
    for i := 0 to |components|
      invariant Pushed(components[..i]) == Some(clean)
    {
      PushedNext(components, i);
      match components[i] {
        case CurDir =>
        case Normal(part) => clean := clean + [part];
        case _ =>
          PushedPrefix(components, i + 1);
          return None;
      }
    }
    assert components[..|components|] == components;
    return Some(clean);
  }

  // ---- Laws ----

  // The parts have no slash, and no character the string does not have.
  lemma {:induction false} SplitParts(s: string)
    ensures forall part :: part in Split(s) ==> '/' !in part
    ensures '\\' !in s ==> forall part :: part in Split(s) ==> '\\' !in part
  {
    if s != "" {
      var rest := Split(s[1..]);
      SplitParts(s[1..]);
      assert rest[0] in rest;
      forall part | part in Split(s) && part !in rest
        ensures '/' !in part && ('\\' !in s ==> '\\' !in part)
      {
        assert part in rest[1..] ==> part in rest;
      }
    }
  }

  // Splitting distributes over a joining slash.
  lemma {:induction false} SplitConcat(a: string, b: string)
    ensures Split(a + "/" + b) == Split(a) + Split(b)
  {
    var s := a + "/" + b;
    if a == "" {
      assert s[1..] == b;
    } else {
      assert s[1..] == a[1..] + "/" + b;
      SplitConcat(a[1..], b);
    }
  }

  lemma {:induction false} SplitPlain(a: string)
    requires '/' !in a
    ensures Split(a) == [a]
  {
    if a != "" {
      SplitPlain(a[1..]);
      assert a == [a[0]] + a[1..];
    }
  }

  lemma {:induction false} SplitJoin(parts: seq<string>)
    requires parts != []
    requires forall i :: 0 <= i < |parts| ==> '/' !in parts[i]
    ensures Split(Join(parts)) == parts
  {
    SplitPlain(parts[0]);
    if |parts| > 1 {
      SplitJoin(parts[1..]);
      SplitConcat(parts[0], Join(parts[1..]));
    }
  }

  lemma {:induction false} KeptConcat(a: seq<string>, b: seq<string>)
    ensures Kept(a + b) == Kept(a) + Kept(b)
  {
    if a == [] {
      assert a + b == b;
    } else {
      KeptConcat(a[1..], b);
      assert (a + b)[0] == a[0] && (a + b)[1..] == a[1..] + b;
      assert [a[0]] + (Kept(a[1..]) + Kept(b)) == [a[0]] + Kept(a[1..]) + Kept(b);
    }
  }

  lemma {:induction false} KeptMeaning(parts: seq<string>)
    ensures forall x :: x in Kept(parts) <==> x in parts && x != "" && x != "."
    ensures (forall x :: x in parts ==> x != "" && x != ".") ==> Kept(parts) == parts
  {
    if parts != [] {
      KeptMeaning(parts[1..]);
      assert parts == [parts[0]] + parts[1..];
      if forall x :: x in parts ==> x != "" && x != "." {
        assert parts[0] in parts;
        assert forall x :: x in parts[1..] ==> x in parts;
      }
    }
  }

  lemma {:induction false} PiecesAreSlashedSplit(s: string)
    ensures Pieces(s) == Split(Slashed(s))
  {
    if s != "" {
      PiecesAreSlashedSplit(s[1..]);
      assert Slashed(s)[1..] == Slashed(s[1..]);
    }
  }

  // Every accepted string names clean components, and they are its kept pieces.
  lemma NormalizeAccepts(raw: string)
    ensures Normalize(raw).Ok? <==> !IsAbsolute(Slashed(raw)) && ".." !in Pieces(raw)
    ensures Normalize(raw).Ok? ==> Normalize(raw).value == Kept(Pieces(raw)) && CleanPath(Normalize(raw).value)
  {
    PiecesAreSlashedSplit(raw);
    KeptMeaning(Pieces(raw));
    SplitParts(Slashed(raw));
    if Normalize(raw).Ok? {
      var p := Normalize(raw).value;
      forall i | 0 <= i < |p| ensures CleanName(p[i]) {
        assert p[i] in Kept(Pieces(raw));
      }
    }
  }

  // A clean path, written with single slashes, names itself: the addressable paths are the clean ones.
  lemma NormalizeJoin(p: Path)
    requires CleanPath(p)
    ensures Normalize(Join(p)) == Ok(p)
  {
    if p != [] {
      JoinHasNoBackslash(p);
      assert Slashed(Join(p)) == Join(p);
      SplitJoin(p);
      KeptMeaning(p);
      assert p[0] != "" && '/' !in p[0];
      assert Join(p)[0] == p[0][0];
    } else {
      assert Slashed("") == "";
      assert Kept([""]) == Kept([""][1..]) == [];
    }
  }

  lemma {:induction false} JoinHasNoBackslash(p: Path)
    requires CleanPath(p)
    ensures '\\' !in Join(p)
  {
    if |p| > 1 {
      JoinHasNoBackslash(p[1..]);
    }
  }

  lemma NormalizeIdempotent(raw: string)
    requires Normalize(raw).Ok?
    ensures Normalize(Join(Normalize(raw).value)) == Normalize(raw)
  {
    NormalizeAccepts(raw);
    NormalizeJoin(Normalize(raw).value);
  }

  // A name with a backslash is a component of no accepted string.
  lemma BackslashUnaddressable(raw: string, name: string)
    requires '\\' in name
    ensures Normalize(raw).Ok? ==> name !in Normalize(raw).value
  {
    NormalizeAccepts(raw);
  }

  lemma NormalizeAgree(a: string, b: string)
    requires Normalize(a).Ok? && Normalize(b).Ok?
    ensures Normalize(a) == Normalize(b) <==> Kept(Pieces(a)) == Kept(Pieces(b))
  {
    NormalizeAccepts(a);
    NormalizeAccepts(b);
  }

  // Appending "/name" descends by one, except after the empty string, where it makes an absolute path.
  lemma NormalizeChild(raw: string, name: string)
    requires Normalize(raw).Ok? && CleanName(name)
    ensures Normalize(raw + "/" + name) == if raw == "" then Err(ABSOLUTE) else Ok(Normalize(raw).value + [name])
  {
    var s := raw + "/" + name;
    assert Slashed(s) == Slashed(raw) + "/" + name;
    SplitConcat(Slashed(raw), name);
    SplitPlain(name);
    KeptConcat(Split(Slashed(raw)), [name]);
    KeptMeaning([name]);
    if raw != "" {
      assert Slashed(s)[0] == Slashed(raw)[0];
    }
  }

  // ---- The client's side ----

  function TrimStart(s: string): string {
    if s != "" && s[0] == '/' then TrimStart(s[1..]) else s
  }

  function NtPathToRelative(fileName: string): string {
    TrimStart(Slashed(fileName))
  }

  lemma {:induction false} TrimKeepsParts(s: string)
    requires '\\' !in s
    ensures Kept(Split(TrimStart(s))) == Kept(Split(s))
    ensures !IsAbsolute(TrimStart(s))
    ensures Slashed(TrimStart(s)) == TrimStart(s)
  {
    if s != "" && s[0] == '/' {
      TrimKeepsParts(s[1..]);
      assert ([""] + Split(s[1..]))[1..] == Split(s[1..]);
    }
  }

  // What the client turns an NT path into is rejected by the server exactly when a component is
  // `..`, and otherwise names exactly the NT path's components.
  lemma NtPathNormalizes(fileName: string)
    ensures Normalize(NtPathToRelative(fileName)) ==
            if ".." in Pieces(fileName) then Err(TRAVERSAL) else Ok(Kept(Pieces(fileName)))
  {
    TrimKeepsParts(Slashed(fileName));
    PiecesAreSlashedSplit(fileName);
    KeptMeaning(Pieces(fileName));
  }
}
