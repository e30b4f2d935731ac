/**
 Path checks of the mount (apps/coh/src/mount.rs) and of the client path parsers (apps/cohsh/src/client.rs and
 apps/cohsh/src/lib.rs): which remote paths a mount-relative path can reach.
 */
module Mount {
  import opened Outcome
  import Text

  const MAX_PATH_COMPONENTS: nat := 8

  datatype PathError = NotAbsolute | BadComponent | NulByte | TooDeep | NotAllowlisted

  // ----- components -----

  function NonEmpty(pieces: seq<string>): (r: seq<string>)
    ensures forall i :: 0 <= i < |r| ==> r[i] != ""
    decreases |pieces|
  {
    if pieces == [] then [] else (if pieces[0] == "" then [] else [pieces[0]]) + NonEmpty(pieces[1..])
  }

  /** What a path names: its non-empty pieces between slashes. */
  function Components(path: string): seq<string> {
    NonEmpty(Text.Split(path, '/'))
  }

  predicate Fine(component: string) {
    component != "." && component != ".." && '\0' !in component
  }

  predicate AllFine(components: seq<string>) {
    forall i :: 0 <= i < |components| ==> Fine(components[i])
  }

  predicate Absolute(path: string) {
    path != "" && path[0] == '/'
  }

  // ----- parsing -----

  function Refusal(component: string): PathError {
    if component == "." || component == ".." then BadComponent else NulByte
  }

  function Walk(pieces: seq<string>, taken: seq<string>, limit: nat): Result<seq<string>, PathError>
    decreases |pieces|
  {
    if pieces == [] then Ok(taken)
    else if pieces[0] == "" then Walk(pieces[1..], taken, limit)
    else if !Fine(pieces[0]) then Err(Refusal(pieces[0]))
    else if |taken| >= limit then Err(TooDeep)
    else Walk(pieces[1..], taken + [pieces[0]], limit)
  }

  /** The components of an absolute path, or the first error met going through them. */
  function Parse(path: string, limit: nat): Result<seq<string>, PathError> {
    if !Absolute(path) then Err(NotAbsolute) else Walk(Text.Split(path, '/')[1..], [], limit)
  }

  /** `parse_path`, with the client's walk depth or the shell's constant as the limit. */
  method ParsePath(path: string, limit: nat) returns (r: Result<seq<string>, PathError>)
    ensures r == Parse(path, limit)
  {
    if !Absolute(path) {
      return Err(NotAbsolute);
    }
    var pieces := Text.Split(path, '/')[1..];
    var components: seq<string> := [];
    var i := 0;
    while i < |pieces|
      invariant 0 <= i <= |pieces|
      invariant Walk(pieces, [], limit) == Walk(pieces[i..], components, limit)
    {
      assert pieces[i..][1..] == pieces[i + 1..];
      var component := pieces[i];
      i := i + 1;
      if component == "" {
        continue;
      }
      if component == "." || component == ".." {
        return Err(BadComponent);
      }
      if '\0' in component {
        return Err(NulByte);
      }
      if |components| >= limit {
        return Err(TooDeep);
      }
      components := components + [component];
    }
    return Ok(components);
  }

  /** `validate_path`: a depth counter in place of the component list. */
  method ValidatePath(path: string) returns (r: Result<(), PathError>)
    ensures r == var parsed := Parse(path, MAX_PATH_COMPONENTS);
                 if parsed.Ok? then Ok(()) else Err(parsed.error)
  {
    if !Absolute(path) {
      return Err(NotAbsolute);
    }
    var pieces := Text.Split(path, '/')[1..];
    var depth := 0;
    ghost var components: seq<string> := [];
    var i := 0;
    while i < |pieces|
      invariant 0 <= i <= |pieces|
      invariant depth == |components| <= MAX_PATH_COMPONENTS
      invariant Walk(pieces, [], MAX_PATH_COMPONENTS) == Walk(pieces[i..], components, MAX_PATH_COMPONENTS)
    {
      assert pieces[i..][1..] == pieces[i + 1..];
      var component := pieces[i];
      i := i + 1;
      if component == "" {
        continue;
      }
      if component == "." || component == ".." {
        return Err(BadComponent);
      }
      if '\0' in component {
        return Err(NulByte);
      }
      depth := depth + 1;
      if depth > MAX_PATH_COMPONENTS {
        return Err(TooDeep);
      }
      components := components + [component];
    }
    return Ok(());
  }

  lemma {:induction false} WalkOk(pieces: seq<string>, taken: seq<string>, limit: nat)
    requires |taken| <= limit
    ensures Walk(pieces, taken, limit).Ok? <==> AllFine(NonEmpty(pieces)) && |taken| + |NonEmpty(pieces)| <= limit
    ensures Walk(pieces, taken, limit).Ok? ==> Walk(pieces, taken, limit).value == taken + NonEmpty(pieces)
    decreases |pieces|
  {
    hide Fine;
    if pieces != [] {
      var rest := NonEmpty(pieces[1..]);
      if pieces[0] == "" {
        assert NonEmpty(pieces) == rest;
        WalkOk(pieces[1..], taken, limit);
      } else {
        assert NonEmpty(pieces) == [pieces[0]] + rest;
        assert NonEmpty(pieces)[0] == pieces[0];
        FineCons(pieces[0], rest);
        if Fine(pieces[0]) && |taken| < limit {
          WalkOk(pieces[1..], taken + [pieces[0]], limit);
        }
      }
    }
  }

  lemma {:induction false} FineCons(c: string, rest: seq<string>)
    ensures AllFine([c] + rest) <==> Fine(c) && AllFine(rest)
  {
    hide Fine;
    var all := [c] + rest;
    assert all[0] == c;
    assert forall i :: 0 <= i < |rest| ==> all[i + 1] == rest[i];
  }

  /** A path parses exactly when it is absolute with at most `limit` components, all fine; and into those. */
  lemma {:induction false} ParseOk(path: string, limit: nat)
    ensures Parse(path, limit).Ok? <==> Absolute(path) && AllFine(Components(path)) && |Components(path)| <= limit
    ensures Parse(path, limit).Ok? ==> Parse(path, limit).value == Components(path)
  {
    if Absolute(path) {
      var pieces := Text.Split(path, '/');
      assert pieces[0] == "" by {
        Text.SplitOfJoin("", '/', path[1..]);
        assert "" + ['/'] + path[1..] == path;
      }
      hide Fine, Text.Split;
      assert NonEmpty(pieces) == NonEmpty(pieces[1..]);
      WalkOk(pieces[1..], [], limit);
    }
  }

  lemma {:induction false} WalkErr(pieces: seq<string>, taken: seq<string>, limit: nat, f: nat)
    requires f < |NonEmpty(pieces)| && |taken| + f <= limit && forall i :: 0 <= i < f ==> Fine(NonEmpty(pieces)[i])
    ensures var c := NonEmpty(pieces)[f];
            && (c == "." || c == ".." ==> Walk(pieces, taken, limit) == Err(BadComponent))
            && ('\0' in c ==> Walk(pieces, taken, limit) == Err(NulByte))
            && (Fine(c) && |taken| + f == limit ==> Walk(pieces, taken, limit) == Err(TooDeep))
    decreases |pieces|
  {
    var rest := NonEmpty(pieces[1..]);
    if pieces[0] == "" {
      assert NonEmpty(pieces) == rest;
      WalkErr(pieces[1..], taken, limit, f);
    } else {
      assert NonEmpty(pieces) == [pieces[0]] + rest;
      if f > 0 {
        assert Fine(NonEmpty(pieces)[0]);
        assert forall i :: 0 <= i < f - 1 ==> rest[i] == NonEmpty(pieces)[i + 1];
        WalkErr(pieces[1..], taken + [pieces[0]], limit, f - 1);
      }
    }
  }

  /** A path is refused for the first component that is bad or one too many: for what it is, or for the depth. */
  lemma {:induction false} ParseErrors(path: string, limit: nat, f: nat)
    requires Absolute(path) && f < |Components(path)| && f <= limit && forall i :: 0 <= i < f ==> Fine(Components(path)[i])
    ensures var c := Components(path)[f];
            && (c == "." || c == ".." ==> Parse(path, limit) == Err(BadComponent))
            && ('\0' in c ==> Parse(path, limit) == Err(NulByte))
            && (Fine(c) && f == limit ==> Parse(path, limit) == Err(TooDeep))
  {
    var pieces := Text.Split(path, '/');
    assert pieces[0] == "" by {
      Text.SplitOfJoin("", '/', path[1..]);
      assert "" + ['/'] + path[1..] == path;
    }
    hide Text.Split, Walk, Fine;
    assert NonEmpty(pieces) == NonEmpty(pieces[1..]);
    WalkErr(pieces[1..], [], limit, f);
  }

  lemma {:induction false} NonEmptyConcat(a: seq<string>, b: seq<string>)
    ensures NonEmpty(a + b) == NonEmpty(a) + NonEmpty(b)
    decreases |a|
  {
    if a == [] {
      assert a + b == b;
    } else {
      assert (a + b)[1..] == a[1..] + b;
      NonEmptyConcat(a[1..], b);
    }
  }

  /** Components of a path continued after a slash. */
  lemma {:induction false} ComponentsConcat(a: string, b: string)
    ensures Components(a + "/" + b) == Components(a) + Components(b)
  {
    Text.SplitOfConcat(a, '/', b);
    NonEmptyConcat(Text.Split(a, '/'), Text.Split(b, '/'));
  }

  lemma {:induction false} ComponentsOfPiece(c: string)
    requires '/' !in c
    ensures Components(c) == if c == "" then [] else [c]
  {
    assert Text.Split(c, '/') == [c];
    assert NonEmpty([c]) == if c == "" then [] else [c];
  }

  // ----- the mount validator -----

  datatype Validator = Validator(root: string, allowlist: seq<string>, allowAllUnderRoot: bool)

  predicate EndsWithSlash(s: string) {
    s != "" && s[|s| - 1] == '/'
  }

  function WithoutSlashes(s: string): (r: string)
    ensures !EndsWithSlash(r)
    decreases |s|
  {
    if EndsWithSlash(s) then WithoutSlashes(s[..|s| - 1]) else s
  }

  function RootOf(text: string): string {
    var trimmed := Text.Trim(text);
    var root := if |trimmed| > 1 then WithoutSlashes(trimmed) else trimmed;
    if root == "" then "/" else root
  }

  function FromPolicy(root: string, allowlist: seq<string>): Validator {
    Validator(RootOf(root), allowlist, RootOf(root) in allowlist)
  }

  method BuildValidator(policyRoot: string, allowlist: seq<string>) returns (v: Validator)
    ensures v == FromPolicy(policyRoot, allowlist)
  {
    var root := Text.Trim(policyRoot);
    if |root| > 1 && EndsWithSlash(root) {
      while EndsWithSlash(root)
        invariant WithoutSlashes(root) == WithoutSlashes(Text.Trim(policyRoot))
        decreases |root|
      {
        root := root[..|root| - 1];
      }
    }
    if root == "" {
      root := "/";
    }
    v := Validator(root, allowlist, root in allowlist);
  }

  /** `remote` is the entry or lies under it, as text. */
  predicate Under(entry: string, remote: string) {
    remote == entry || entry + "/" <= remote
  }

  predicate Allowed(v: Validator, remote: string) {
    || remote == v.root
    || (v.allowAllUnderRoot && v.root + "/" <= remote)
    || (!v.allowAllUnderRoot && exists i :: 0 <= i < |v.allowlist| && Under(v.allowlist[i], remote))
  }

  function Joined(v: Validator, relative: string): string {
    if v.root == "/" then relative else if relative == "/" then v.root else v.root + relative
  }

  /** `resolve_remote`. */
  function Resolve(v: Validator, path: string): Result<string, PathError> {
    var relative := if path == "" then "/" else path;
    if !Absolute(relative) then Err(NotAbsolute)
    else
      var remote := Joined(v, relative);
      var parsed := Parse(remote, MAX_PATH_COMPONENTS);
      if parsed.Err? then Err(parsed.error)
      else if !Allowed(v, remote) then Err(NotAllowlisted)
      else Ok(remote)
  }

  predicate AllSlashes(s: string) {
    forall i :: 0 <= i < |s| ==> s[i] == '/'
  }

  lemma {:induction false} WithoutSlashesIs(s: string, slashes: string)
    requires !EndsWithSlash(s) && AllSlashes(slashes)
    ensures WithoutSlashes(s + slashes) == s
    decreases |slashes|
  {
    if slashes == [] {
      assert s + slashes == s;
    } else {
      var n := |slashes| - 1;
      var t := s + slashes;
      assert t[..|t| - 1] == s + slashes[..n] && t[|t| - 1] == '/';
      WithoutSlashesIs(s, slashes[..n]);
    }
  }

  /** The root mounted is the policy's without blanks around it and slashes after it; nothing left is the top directory. */
  lemma {:induction false} RootIs(before: string, root: string, slashes: string, after: string)
    requires Text.IsBlank(before) && Text.IsBlank(after) && AllSlashes(slashes)
    requires Text.IsTrimmed(root) && !EndsWithSlash(root)
    ensures RootOf(before + (root + slashes) + after) == if root == "" then "/" else root
  {
    hide Text.Trim, Text.IsTrimmed, Text.IsBlank, WithoutSlashes;
    var text := root + slashes;
    SlashesAreTrimmed(root, slashes);
    Text.TrimOfPadded(before, text, after);
    WithoutSlashesIs(root, slashes);
    if |text| <= 1 {
      assert text == "" || text == [text[0]];
    }
  }

  lemma {:induction false} SlashesAreTrimmed(root: string, slashes: string)
    requires Text.IsTrimmed(root) && AllSlashes(slashes)
    ensures Text.IsTrimmed(root + slashes)
  {
    assert !Text.IsWhitespace('/');
    hide Text.IsWhitespace;
    var text := root + slashes;
    if text != [] {
      assert text[0] == (if root != [] then root[0] else slashes[0]);
    }
  }

  // ----- soundness -----

  lemma {:induction false} UnderExtends(entry: string, remote: string)
    requires Under(entry, remote)
    ensures Components(entry) <= Components(remote)
  {
    if remote != entry {
      var rest := remote[|entry| + 1..];
      assert remote == entry + "/" + rest;
      ComponentsConcat(entry, rest);
    }
  }

  lemma {:induction false} ComponentsOfEmpty()
    ensures Components("") == []
  {
    ComponentsOfPiece("");
  }

  lemma {:induction false} LeadingSlash(rest: string)
    ensures Components("/" + rest) == Components(rest)
  {
    ComponentsOfEmpty();
    hide Components;
    ComponentsConcat("", rest);
    assert "" + "/" + rest == "/" + rest;
  }

  lemma {:induction false} ComponentsOfSlash()
    ensures Components("/") == []
  {
    ComponentsOfEmpty();
    hide Components;
    LeadingSlash("");
    assert "/" + "" == "/";
  }

  /** A resolved path names the root followed by the relative path. */
  lemma {:induction false} JoinedComponents(v: Validator, relative: string)
    requires Absolute(relative)
    ensures Components(Joined(v, relative)) == Components(v.root) + Components(relative)
  {
    hide Components;
    ComponentsOfSlash();
    Continued(v.root, relative);
  }

  /**
   Whatever resolves is under the mount root and under an allowlisted entry, component by component, is at most
   eight components deep and has none that is a dot, a double dot or holds NUL.
   */
  lemma {:induction false} ResolveSound(v: Validator, path: string)
    requires Resolve(v, path).Ok?
    ensures var remote := Resolve(v, path).value;
            && Components(remote) == Components(v.root) + Components(path)
            && AllFine(Components(remote))
            && |Components(remote)| <= 8
            && (|| remote == v.root
                || v.allowAllUnderRoot
                || exists i :: 0 <= i < |v.allowlist| && Components(v.allowlist[i]) <= Components(remote))
  {
    ComponentsOfEmpty();
    ComponentsOfSlash();
    var relative := if path == "" then "/" else path;
    JoinedComponents(v, relative);
    var remote := Joined(v, relative);
    ParseOk(remote, MAX_PATH_COMPONENTS);
    hide Components, Parse, AllFine;
    if remote != v.root && !v.allowAllUnderRoot {
      var i :| 0 <= i < |v.allowlist| && Under(v.allowlist[i], remote);
      UnderExtends(v.allowlist[i], remote);
    }
  }

  // ----- completeness on paths in normal form -----

  /** Components written back as a path; no components are the empty text here. */
  function PathOf(components: seq<string>): string
    decreases |components|
  {
    if components == [] then "" else "/" + components[0] + PathOf(components[1..])
  }

  predicate AreNames(components: seq<string>) {
    forall i :: 0 <= i < |components| ==> components[i] != "" && '/' !in components[i]
  }

  lemma {:induction false} PathOfConcat(a: seq<string>, b: seq<string>)
    ensures PathOf(a + b) == PathOf(a) + PathOf(b)
    decreases |a|
  {
    if a == [] {
      assert a + b == b;
    } else {
      assert (a + b)[1..] == a[1..] + b;
      PathOfConcat(a[1..], b);
      assert "/" + a[0] + (PathOf(a[1..]) + PathOf(b)) == "/" + a[0] + PathOf(a[1..]) + PathOf(b);
    }
  }

  /** Writing names as a path and reading the components gives the names back. */
  lemma {:induction false} ComponentsOfPath(names: seq<string>)
    requires AreNames(names)
    ensures Components(PathOf(names)) == names
    decreases |names|
  {
    hide Components;
    if names == [] {
      ComponentsOfEmpty();
    } else {
      var first, rest := names[0], names[1..];
      ComponentsOfPath(rest);
      ComponentsOfPiece(first);
      LeadingSlash(first + PathOf(rest));
      assert PathOf(names) == "/" + (first + PathOf(rest));
      if rest == [] {
        assert first + PathOf(rest) == first;
      } else {
        PathOfHead(rest);
        Continued(first, PathOf(rest));
      }
      assert names == [first] + rest;
    }
  }

  lemma {:induction false} Continued(a: string, path: string)
    requires Absolute(path)
    ensures Components(a + path) == Components(a) + Components(path)
  {
    hide Components;
    var rest := path[1..];
    assert path == "/" + rest;
    assert a + path == a + "/" + rest;
    ComponentsConcat(a, rest);
    LeadingSlash(rest);
  }

  lemma {:induction false} PathOfHead(names: seq<string>)
    requires names != []
    ensures Absolute(PathOf(names))
  {}

  /** On normal paths, lying under an entry as text is extending its components. */
  lemma {:induction false} UnderIff(entry: seq<string>, remote: seq<string>)
    requires AreNames(entry) && AreNames(remote)
    ensures Under(PathOf(entry), PathOf(remote)) <==> entry <= remote
  {
    ComponentsOfPath(entry);
    ComponentsOfPath(remote);
    hide Components;
    if Under(PathOf(entry), PathOf(remote)) {
      UnderExtends(PathOf(entry), PathOf(remote));
    }
    if entry <= remote {
      PrefixUnder(entry, remote);
    }
  }

  lemma {:induction false} PrefixUnder(entry: seq<string>, remote: seq<string>)
    requires entry <= remote
    ensures Under(PathOf(entry), PathOf(remote))
  {
    var rest := remote[|entry|..];
    assert remote == entry + rest;
    PathOfConcat(entry, rest);
    if rest != [] {
      PathOfHead(rest);
      var e, p := PathOf(entry), PathOf(rest);
      assert p == "/" + p[1..];
      assert e + p == e + "/" + p[1..];
    }
  }

  /** The normal form of a path. */
  function Normal(names: seq<string>): string {
    if names == [] then "/" else PathOf(names)
  }

  lemma {:induction false} NormalIs(names: seq<string>)
    requires AreNames(names)
    ensures Components(Normal(names)) == names && Absolute(Normal(names))
    ensures names != [] ==> |Normal(names)| >= 2 && Normal(names)[1] != '/'
  {
    hide Components;
    if names == [] {
      ComponentsOfSlash();
    } else {
      ComponentsOfPath(names);
      PathOfHead(names);
      assert PathOf(names) == "/" + (names[0] + PathOf(names[1..]));
      assert PathOf(names)[1] == names[0][0];
      assert names[0][0] in names[0];
    }
  }

  lemma {:induction false} UnderNormalIff(entry: seq<string>, remote: seq<string>)
    requires AreNames(entry) && AreNames(remote)
    ensures Under(Normal(entry), Normal(remote)) <==> if entry == [] then remote == [] else entry <= remote
  {
    NormalIs(entry);
    NormalIs(remote);
    UnderIff(entry, remote);
    hide Components, PathOf;
    if entry == [] {
      assert "/" + "/" == "//";
    }
  }

  predicate InNormalForm(v: Validator, root: seq<string>, entries: seq<seq<string>>) {
    && AreNames(root) && v.root == Normal(root)
    && |entries| == |v.allowlist|
    && (forall i :: 0 <= i < |entries| ==> AreNames(entries[i]) && v.allowlist[i] == Normal(entries[i]))
    && v.allowAllUnderRoot == (v.root in v.allowlist)
  }

  /** What the allowlist check grants for components below the root. */
  predicate Granted(root: seq<string>, entries: seq<seq<string>>, below: seq<string>) {
    || below == []
    || (&& !(root == [] && [] in entries)
        && exists i :: 0 <= i < |entries| && entries[i] != [] && entries[i] <= root + below)
  }

  lemma {:induction false} NormalInjective(a: seq<string>, b: seq<string>)
    requires AreNames(a) && AreNames(b)
    ensures Normal(a) == Normal(b) <==> a == b
  {
    hide Components, Normal, AreNames;
    NormalIs(a);
    NormalIs(b);
  }

  lemma {:induction false} RootListedIff(v: Validator, root: seq<string>, entries: seq<seq<string>>)
    requires InNormalForm(v, root, entries)
    ensures v.allowAllUnderRoot <==> root in entries
  {
    hide Normal, AreNames;
    if v.allowAllUnderRoot {
      var i :| 0 <= i < |v.allowlist| && v.allowlist[i] == v.root;
      NormalInjective(root, entries[i]);
      assert entries[i] in entries;
    }
    if root in entries {
      var i :| 0 <= i < |entries| && entries[i] == root;
      assert v.allowlist[i] in v.allowlist;
    }
  }

  lemma {:induction false} NamesConcat(a: seq<string>, b: seq<string>)
    requires AreNames(a) && AreNames(b)
    ensures AreNames(a + b)
  {}

  lemma {:induction false} AllowedIff(v: Validator, root: seq<string>, entries: seq<seq<string>>, below: seq<string>)
    requires InNormalForm(v, root, entries) && AreNames(below)
    ensures Allowed(v, Normal(root + below)) <==> Granted(root, entries, below)
  {
    var remote := root + below;
    hide Normal, AreNames;
    NamesConcat(root, below);
    NormalInjective(root, remote);
    RootListedIff(v, root, entries);
    assert remote == root <==> below == [];
    if below != [] {
      UnderNormalIff(root, remote);
      if !v.allowAllUnderRoot {
        EntryIff(v, root, entries, remote);
      }
    }
  }

  lemma {:induction false} EntryIff(v: Validator, root: seq<string>, entries: seq<seq<string>>, remote: seq<string>)
    requires InNormalForm(v, root, entries) && AreNames(remote) && remote != []
    ensures (exists i :: 0 <= i < |v.allowlist| && Under(v.allowlist[i], Normal(remote)))
            <==> exists i :: 0 <= i < |entries| && entries[i] != [] && entries[i] <= remote
  {
    hide Normal, AreNames, Under;
    forall i | 0 <= i < |entries|
      ensures Under(v.allowlist[i], Normal(remote)) <==> entries[i] != [] && entries[i] <= remote
    {
      UnderNormalIff(entries[i], remote);
    }
  }

  lemma {:induction false} JoinedNormal(v: Validator, root: seq<string>, below: seq<string>)
    requires v.root == Normal(root) && AreNames(root) && AreNames(below)
    ensures Joined(v, Normal(below)) == Normal(root + below)
  {
    NormalInjective(root, []);
    NormalInjective(below, []);
    if root == [] {
      assert root + below == below;
    } else if below == [] {
      assert root + below == root;
    } else {
      hide Components;
      PathOfConcat(root, below);
    }
  }

  /**
   For a mount and a path in normal form: the path resolves exactly when its components are fine, at most eight deep
   counting the root's, and granted, that is, it is the root or an entry other than the top directory is a prefix
   of it, component by component. The exception is a mount of the top directory that also lists the top
   directory: of the paths in normal form it grants only the root itself.
   */
  lemma {:induction false} NormalResolveIff(v: Validator, root: seq<string>, entries: seq<seq<string>>, below: seq<string>)
    requires InNormalForm(v, root, entries) && AreNames(below)
    ensures Resolve(v, Normal(below)).Ok?
            <==> && AllFine(root + below)
                 && |root + below| <= 8
                 && Granted(root, entries, below)
  {
    NamesConcat(root, below);
    NormalIs(below);
    NormalIs(root + below);
    JoinedNormal(v, root, below);
    ParseOk(Normal(root + below), MAX_PATH_COMPONENTS);
    AllowedIff(v, root, entries, below);
    hide Normal, AreNames, Granted, Allowed, Joined, Parse, Components, AllFine, InNormalForm;
  }

  // ----- every path text -----

  /** An entry lets a path below the root through: it holds the root, or what it adds to the root starts the path. */
  predicate EntryGrants(entry: seq<string>, root: seq<string>, path: string) {
    entry != [] && (entry <= root || (root <= entry && Under(PathOf(entry[|root|..]), path)))
  }

  /** What the allowlist check grants for the text of a path below the root. */
  predicate GrantedText(root: seq<string>, entries: seq<seq<string>>, path: string) {
    || path == "/"
    || (if root in entries then root != [] || "//" <= path
        else exists i :: 0 <= i < |entries| && EntryGrants(entries[i], root, path))
  }

  lemma {:induction false} UnderAbsolute(a: string, path: string)
    requires Absolute(path)
    ensures Under(a, a + path) && a + "/" <= a + path
  {
    assert path == "/" + path[1..];
    assert a + path == a + "/" + path[1..];
  }

  lemma {:induction false} UnderCancel(r: string, t: string, path: string)
    ensures Under(r + t, r + path) <==> Under(t, path)
  {
    assert (r + path)[|r|..] == path && (r + t)[|r|..] == t && (r + t + "/")[|r|..] == t + "/";
    if t + "/" <= path {
      assert r + t + "/" <= r + path;
    }
    if r + t + "/" <= r + path {
      assert (r + path)[..|r + t + "/"|] == r + t + "/";
      assert path[..|t + "/"|] == (r + path)[|r|..|r + t + "/"|] == t + "/";
    }
  }

  lemma {:induction false} UnderJoinedIff(entry: seq<string>, root: seq<string>, path: string)
    requires AreNames(entry) && AreNames(root) && Absolute(path) && entry != []
    ensures Under(PathOf(entry), PathOf(root) + path) <==> EntryGrants(entry, root, path)
  {
    hide Components, AreNames, Under;
    ComponentsOfPath(entry);
    ComponentsOfPath(root);
    Continued(PathOf(root), path);
    if Under(PathOf(entry), PathOf(root) + path) {
      UnderExtends(PathOf(entry), PathOf(root) + path);
      assert entry <= root + Components(path);
      assert entry <= root || root <= entry;
    }
    if entry <= root {
      HoldsRoot(entry, root, path);
    } else if root <= entry {
      assert entry == root + entry[|root|..];
      PathOfConcat(root, entry[|root|..]);
      UnderCancel(PathOf(root), PathOf(entry[|root|..]), path);
    }
  }

  lemma {:induction false} HoldsRoot(entry: seq<string>, root: seq<string>, path: string)
    requires entry <= root && Absolute(path)
    ensures Under(PathOf(entry), PathOf(root) + path)
  {
    var rest := root[|entry|..];
    assert root == entry + rest;
    PathOfConcat(entry, rest);
    var tail := PathOf(rest) + path;
    if rest != [] {
      PathOfHead(rest);
      assert tail[0] == PathOf(rest)[0];
    } else {
      assert tail == path;
    }
    hide PathOf;
    UnderAbsolute(PathOf(entry), tail);
    assert PathOf(entry) + PathOf(rest) + path == PathOf(entry) + tail;
  }

  /** Below the root, the text that is checked is the root's names and the path. */
  lemma {:induction false} JoinedText(v: Validator, root: seq<string>, path: string)
    requires v.root == Normal(root) && AreNames(root) && Absolute(path) && path != "/"
    ensures Joined(v, path) == PathOf(root) + path && Joined(v, path) != v.root
    ensures v.root + "/" <= Joined(v, path) <==> root != [] || "//" <= path
    ensures Under("/", Joined(v, path)) <==> root == [] && "//" <= path
  {
    NormalIs(root);
    hide Components, AreNames;
    assert "/" + "/" == "//";
    if root == [] {
      assert PathOf(root) + path == path;
    } else {
      UnderAbsolute(v.root, path);
      var remote := v.root + path;
      assert remote[1] == v.root[1] != '/';
    }
  }

  lemma {:induction false} AllowedTextIff(v: Validator, root: seq<string>, entries: seq<seq<string>>, path: string)
    requires InNormalForm(v, root, entries) && Absolute(path)
    ensures Allowed(v, Joined(v, path)) <==> GrantedText(root, entries, path)
  {
    RootListedIff(v, root, entries);
    if path == "/" {
      assert Joined(v, path) == v.root;
    } else {
      JoinedText(v, root, path);
      hide Under, AreNames, EntryGrants, PathOf, Joined, Absolute;
      forall i | 0 <= i < |entries| && root !in entries
        ensures Under(v.allowlist[i], Joined(v, path)) <==> EntryGrants(entries[i], root, path)
      {
        EntryTextIff(entries, i, root, path);
      }
    }
  }

  lemma {:induction false} EntryTextIff(entries: seq<seq<string>>, i: nat, root: seq<string>, path: string)
    requires i < |entries| && AreNames(entries[i]) && AreNames(root) && Absolute(path) && path != "/" && root !in entries
    ensures Under(Normal(entries[i]), PathOf(root) + path) <==> EntryGrants(entries[i], root, path)
  {
    hide AreNames, Components, Under, Absolute;
    if entries[i] == [] {
      JoinedText(Validator(Normal(root), [], false), root, path);
    } else {
      UnderJoinedIff(entries[i], root, path);
    }
  }

  /**
   For a mount whose root and allowlist are in normal form, and every path text at all: the path resolves exactly
   when it is empty or absolute, its components below the root's are fine and at most eight deep, and its text is
   granted.
   */
  lemma {:induction false} ResolveIff(v: Validator, root: seq<string>, entries: seq<seq<string>>, path: string)
    requires InNormalForm(v, root, entries)
    ensures Resolve(v, path).Ok?
            <==> && (path == "" || (Absolute(path) && GrantedText(root, entries, path)))
                 && AllFine(root + Components(path))
                 && |root + Components(path)| <= 8
  {
    var relative := if path == "" then "/" else path;
    ComponentsOfEmpty();
    ComponentsOfSlash();
    NormalIs(root);
    if Absolute(relative) {
      JoinedComponents(v, relative);
      JoinedAbsolute(v, relative);
      ParseOk(Joined(v, relative), MAX_PATH_COMPONENTS);
      AllowedTextIff(v, root, entries, relative);
    }
    hide Normal, AreNames, Allowed, Joined, Parse, Components, AllFine, InNormalForm;
  }

  lemma {:induction false} JoinedAbsolute(v: Validator, relative: string)
    requires Absolute(v.root) && Absolute(relative)
    ensures Absolute(Joined(v, relative))
  {}

  /**
   A mount of the top directory that lists the top directory resolves the root itself and otherwise only texts that
   begin with two slashes, whatever else its allowlist holds.
   */
  lemma {:induction false} TopMountIff(v: Validator, path: string)
    requires v.root == "/" && v.allowAllUnderRoot
    ensures Resolve(v, path).Ok?
            <==> && (path == "" || path == "/" || "//" <= path)
                 && AllFine(Components(path))
                 && |Components(path)| <= 8
  {
    hide Components, Parse, AllFine;
    ComponentsOfEmpty();
    ComponentsOfSlash();
    var relative := if path == "" then "/" else path;
    ParseOk(relative, MAX_PATH_COMPONENTS);
    TwoSlashes(path);
  }

  lemma {:induction false} TwoSlashes(path: string)
    ensures "/" + "/" == "//" && ("//" <= path ==> Absolute(path) && path != "/")
  {
    assert "//" <= path ==> path[0] == "//"[0];
  }

  /** One name below such a mount: refused as `/x`, resolved as `//x`. */
  lemma {:induction false} TopMountAtName(v: Validator, x: string)
    requires v.root == "/" && v.allowAllUnderRoot && AreNames([x]) && Fine(x)
    ensures Components("/" + x) == Components("//" + x) == [x]
    ensures Resolve(v, "/" + x) == Err(NotAllowlisted)
    ensures Resolve(v, "//" + x) == Ok("//" + x)
  {
    hide Components, Parse, AllFine, Fine;
    assert AreNames([x]) && [x][0] == x;
    ComponentsOfPiece(x);
    LeadingSlash(x);
    LeadingSlash("/" + x);
    assert "/" + ("/" + x) == "//" + x;
    FineCons(x, []);
    assert AllFine([x]) by {
      assert [x] + [] == [x];
      AllFineNone();
    }
    ParseOk("/" + x, MAX_PATH_COMPONENTS);
    ParseOk("//" + x, MAX_PATH_COMPONENTS);
    TwoSlashes("//" + x);
    assert x[0] in x;
    assert ("/" + x)[1] == x[0];
    assert !("//" <= "/" + x) by {
      assert "//"[1] == '/';
    }
  }

  lemma {:induction false} AllFineNone()
    ensures AllFine([])
  {}

  lemma {:induction false} TopRoot()
    ensures RootOf("/") == "/"
  {
    RootIs("", "", "/", "");
    assert "" + ("" + "/") + "" == "/";
  }

  /** The policy that mounts the top directory and allowlists it, at the name `x`. */
  lemma {:induction false} TopPolicyRefuses()
    ensures Resolve(FromPolicy("/", ["/"]), "/x") == Err(NotAllowlisted)
    ensures Resolve(FromPolicy("/", ["/"]), "//x") == Ok("//x")
  {
    hide Resolve;
    var v := FromPolicy("/", ["/"]);
    hide RootOf, Text.IsBlank, Text.IsTrimmed;
    TopRoot();
    assert "/" in ["/"];
    hide FromPolicy;
    assert "/" + "x" == "/x" && "//" + "x" == "//x";
    TopMountAtName(v, "x");
  }
}
