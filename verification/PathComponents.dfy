/** The component view of paths, and the proof that the string tests of `Paths` compute it. */
module PathComponents {
  import opened Paths

  predicate ValidComponent(c: string) {
    !Reserved(c) && '/' !in c && '\0' !in c
  }

  predicate ValidComponents(cs: seq<string>) {
    forall c :: c in cs ==> ValidComponent(c)
  }

  predicate NoSlashes(cs: seq<string>) {
    forall c :: c in cs ==> '/' !in c
  }

  function Body(cs: seq<string>): string {
    if cs == [] then "" else "/" + cs[0] + Body(cs[1..])
  }

  function Render(cs: seq<string>): string {
    if cs == [] then "/" else Body(cs)
  }

  function Components(path: string): seq<string> {
    if path == "/" then [] else Split(path)[1..]
  }

  lemma {:induction false} BodyConcat(a: seq<string>, b: seq<string>)
    ensures Body(a + b) == Body(a) + Body(b)
  {
    if a == [] {
      assert a + b == b;
    } else {
      BodyConcat(a[1..], b);
      assert (a + b)[1..] == a[1..] + b;
    }
  }

  lemma {:induction false} SplitAfter(c: string, t: string)
    requires '/' !in c
    ensures Split(c + t) == [c + Split(t)[0]] + Split(t)[1..]
  {
    if c == "" {
      assert c + t == t;
      assert c + Split(t)[0] == Split(t)[0];
    } else {
      SplitAfter(c[1..], t);
      assert (c + t)[1..] == c[1..] + t;
      assert c + Split(t)[0] == [c[0]] + (c[1..] + Split(t)[0]);
    }
  }

  lemma {:induction false} SplitBody(cs: seq<string>)
    requires NoSlashes(cs)
    ensures Split(Body(cs)) == [""] + cs
  {
    if cs == [] {
    } else {
      var tail := cs[0] + Body(cs[1..]);
      assert Body(cs) == "/" + tail;
      assert Body(cs)[1..] == tail;
      SplitAfter(cs[0], Body(cs[1..]));
      SplitBody(cs[1..]);
      assert cs[0] + "" == cs[0];
      assert Split(tail) == [cs[0]] + cs[1..] == cs;
    }
  }

  lemma {:induction false} SplitJoins(s: string)
    ensures s == Split(s)[0] + Body(Split(s)[1..])
  {
    if s == "" {
    } else {
      var rest := Split(s[1..]);
      SplitJoins(s[1..]);
      if s[0] == '/' {
        assert Split(s)[1..] == rest;
      } else {
        assert Split(s)[1..] == rest[1..];
      }
    }
  }

  lemma {:induction false} BodyChars(cs: seq<string>, x: char)
    requires x != '/'
    ensures x in Body(cs) <==> exists c :: c in cs && x in c
  {
    if cs == [] {
    } else {
      BodyChars(cs[1..], x);
      assert Body(cs) == "/" + cs[0] + Body(cs[1..]);
      assert forall c :: c in cs <==> c == cs[0] || c in cs[1..];
    }
  }

  /** Every valid path is the rendering of its components, which are all valid. */
  lemma ValidPathIsRendered(path: string)
    requires ValidPath(path)
    ensures ValidComponents(Components(path)) && Render(Components(path)) == path
    ensures path != "/" ==> Components(path) != [] && Body(Components(path)) == path
  {
    if path != "/" {
      SplitJoins(path);
      assert Split(path)[0] == "";
      var cs := Components(path);
      BodyChars(cs, '\0');
      assert Body(cs) == path;
      forall c | c in cs
        ensures ValidComponent(c)
      {
        var i :| 0 <= i < |cs| && cs[i] == c;
        assert Split(path)[i + 1] == c;
      }
    }
  }

  /** Every list of valid components renders to a valid path with exactly those components. */
  lemma RenderedIsValid(cs: seq<string>)
    requires ValidComponents(cs)
    ensures ValidPath(Render(cs)) && Components(Render(cs)) == cs
    ensures cs != [] ==> Render(cs) != "/"
  {
    if cs != [] {
      SplitBody(cs);
      BodyChars(cs, '\0');
      var p := Render(cs);
      assert cs[0] in cs && cs[0] != "";
      assert p[0] == '/' && |p| > 1;
      assert Split(p)[1..] == cs;
      forall i | 1 <= i < |Split(p)|
        ensures !Reserved(Split(p)[i])
      {
        assert Split(p)[i] == cs[i - 1];
        assert cs[i - 1] in cs;
      }
    }
  }

  /** For a non-root `root`, the string subtree test is the component-prefix test. */
  lemma SubtreeIsPrefix(path: string, root: string)
    requires ValidPath(path) && ValidNonRoot(root)
    ensures InSubtree(path, root) <==> Components(root) <= Components(path)
  {
    ValidPathIsRendered(path);
    ValidPathIsRendered(root);
    if InSubtree(path, root) {
      BelowHasPrefix(path, Components(root));
    }
    if Components(root) <= Components(path) && path != "/" {
      PrefixIsBelow(Components(path), Components(root));
    }
  }

  lemma BelowHasPrefix(path: string, cr: seq<string>)
    requires NoSlashes(cr) && InSubtree(path, Body(cr)) && path != "/"
    ensures cr <= Components(path)
  {
    var s := path[|Body(cr)|..];
    assert path == Body(cr) + s;
    SplitJoins(s);
    var below := Split(s)[1..];
    assert Split(s)[0] == "" && s == Body(below);
    BodyConcat(cr, below);
    assert path == Body(cr + below);
    SplitBody(cr + below);
    assert Split(path) == [""] + (cr + below);
    assert Components(path) == cr + below;
  }

  lemma PrefixIsBelow(cp: seq<string>, cr: seq<string>)
    requires cr <= cp && cr != []
    ensures InSubtree(Body(cp), Body(cr))
  {
    var below := cp[|cr|..];
    assert cp == cr + below;
    BodyConcat(cr, below);
    assert Body(cp) == Body(cr) + Body(below);
    assert below != [] ==> Body(below)[0] == '/';
  }

  /** With the root itself as `root` the string test is not the prefix test: nothing but the
      root passes it, although every path has the root's (empty) component list as a prefix. */
  lemma RootSubtreeIsOnlyTheRoot(path: string)
    requires ValidPath(path)
    ensures InSubtree(path, "/") <==> path == "/"
    ensures Components("/") <= Components(path)
  {
    if path != "/" {
      assert !Reserved(Split(path)[1]);
      assert Split(path) == [""] + Split(path[1..]);
      assert path[1] != '/';
    }
  }

  /** A rename is accepted exactly when both ends are non-root paths and neither one's
      components are a prefix of the other's. */
  lemma RenameAcceptedIff(oldPath: string, newPath: string)
    requires ValidPath(oldPath) && ValidPath(newPath)
    ensures ValidRename(oldPath, newPath) <==>
            && !(Components(oldPath) <= Components(newPath))
            && !(Components(newPath) <= Components(oldPath))
  {
    ValidPathIsRendered(oldPath);
    ValidPathIsRendered(newPath);
    if oldPath != "/" && newPath != "/" {
      SubtreeIsPrefix(oldPath, newPath);
      SubtreeIsPrefix(newPath, oldPath);
    }
  }

  /** Replacing a subtree prefix is replacing the component prefix; the result is a valid path. */
  lemma RebaseComponents(path: string, oldRoot: string, newRoot: string)
    requires ValidPath(path) && ValidNonRoot(oldRoot) && ValidNonRoot(newRoot)
    requires InSubtree(path, oldRoot)
    ensures ValidNonRoot(Rebase(path, oldRoot, newRoot))
    ensures Components(oldRoot) <= Components(path)
    ensures Components(Rebase(path, oldRoot, newRoot))
         == Components(newRoot) + Components(path)[|Components(oldRoot)|..]
  {
    SubtreeIsPrefix(path, oldRoot);
    ValidPathIsRendered(path);
    ValidPathIsRendered(newRoot);
    var cn, below := Components(newRoot), Components(path)[|Components(oldRoot)|..];
    RebasedBody(path, oldRoot, newRoot);
    assert ValidComponents(cn + below);
    RenderedIsValid(cn + below);
  }

  lemma RebasedBody(path: string, oldRoot: string, newRoot: string)
    requires ValidNonRoot(path) && ValidNonRoot(oldRoot) && ValidNonRoot(newRoot)
    requires Components(oldRoot) <= Components(path)
    ensures Rebase(path, oldRoot, newRoot)
         == Body(Components(newRoot) + Components(path)[|Components(oldRoot)|..])
  {
    ValidPathIsRendered(path);
    ValidPathIsRendered(oldRoot);
    ValidPathIsRendered(newRoot);
    var co := Components(oldRoot);
    var below := Components(path)[|co|..];
    assert Components(path) == co + below;
    BodyConcat(co, below);
    assert Suffix(path, oldRoot) == Body(below);
    BodyConcat(Components(newRoot), below);
  }

  /** Two paths of one subtree never collide after the prefix is replaced. */
  lemma RebaseInjective(p: string, q: string, oldRoot: string, newRoot: string)
    requires InSubtree(p, oldRoot) && InSubtree(q, oldRoot) && newRoot != ""
    ensures Rebase(p, oldRoot, newRoot) == Rebase(q, oldRoot, newRoot) <==> p == q
  {
    RebaseInverse(p, oldRoot, newRoot);
    RebaseInverse(q, oldRoot, newRoot);
  }

  /** `ParentPath` cuts at the slash that `JoinChild` put in. */
  lemma ParentOfJoined(parent: string, name: string)
    requires ValidPath(parent) && '/' !in name
    ensures ParentPath(JoinChild(parent, name)) == parent
  {
    var child := JoinChild(parent, name);
    var cut := if parent == "/" then 0 else |parent|;
    assert child[cut] == '/';
    forall j | cut < j < |child|
      ensures child[j] != '/'
    {
      assert child[j] == name[j - cut - 1];
    }
    assert child[..cut] == if parent == "/" then "" else parent;
  }

  /** `ParentPath` undoes `JoinChild`, and the joined path is a protocol path exactly when the
      name is not one of the two dot names, which the child-name check lets through. */
  lemma JoinThenParent(parent: string, name: string)
    requires ValidPath(parent) && ValidChildName(name)
    ensures ParentPath(JoinChild(parent, name)) == parent
    ensures ValidPath(JoinChild(parent, name)) <==> name != "." && name != ".."
    ensures Components(JoinChild(parent, name)) == Components(parent) + [name]
  {
    ParentOfJoined(parent, name);
    JoinedComponents(parent, name);
    ValidPathIsRendered(parent);
    var child, cs := JoinChild(parent, name), Components(parent) + [name];
    if name != "." && name != ".." {
      RenderedIsValid(cs);
    } else {
      assert Split(child)[|cs|] == name;
    }
  }

  lemma JoinedComponents(parent: string, name: string)
    requires ValidPath(parent) && ValidChildName(name)
    ensures var cs := Components(parent) + [name];
            JoinChild(parent, name) == Render(cs) && Split(JoinChild(parent, name)) == [""] + cs
    ensures Components(JoinChild(parent, name)) == Components(parent) + [name]
  {
    ValidPathIsRendered(parent);
    var cs := Components(parent);
    BodyConcat(cs, [name]);
    assert Body([name]) == "/" + name;
    assert JoinChild(parent, name) == Body(cs + [name]);
    SplitBody(cs + [name]);
  }
}
