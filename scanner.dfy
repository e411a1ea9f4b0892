/** The directory scan of `matching`: keep the listed names whose extension is
    in an allow-list, in listing order, each joined onto a directory. */
module Scanner {
  import opened Strings
  import opened Paths

  /** The listed names whose `splitext` extension is in `allowed`, compared
      exactly (case-sensitive), in listing order. */
  function Kept(listing: seq<string>, allowed: seq<string>): (kept: seq<string>)
  {
    if |listing| == 0 then []
    else
      var name := listing[|listing| - 1];
      var earlier := Kept(listing[..|listing| - 1], allowed);
      if Extension(name) in allowed then earlier + [name] else earlier
  }

  /** Each name joined onto `dir`. */
  function Joined(dir: string, names: seq<string>): (paths: seq<string>)
    ensures |paths| == |names|
    ensures forall i :: 0 <= i < |names| ==> paths[i] == Join(dir, names[i])
  {
    seq(|names|, i requires 0 <= i < |names| => Join(dir, names[i]))
  }

  /** The two filtering loops: every listed name with an allowed extension
      becomes `join(dir, name)`, in listing order. */
  method Scan(dir: string, listing: seq<string>, allowed: seq<string>) returns (files: seq<string>)
    ensures files == Joined(dir, Kept(listing, allowed))
  {
    files := [];
    for i := 0 to |listing|
      invariant files == Joined(dir, Kept(listing[..i], allowed))
    {
      var filename := listing[i];
      assert listing[..i + 1][..i] == listing[..i];
      if Extension(filename) in allowed {
        files := files + [Join(dir, filename)];
      }
    }
    assert listing[..|listing|] == listing;
  }

  /** A name is kept exactly when it is listed and its extension is allowed. */
  lemma {:induction false} KeptExactly(listing: seq<string>, allowed: seq<string>, name: string)
    ensures name in Kept(listing, allowed) <==> name in listing && Extension(name) in allowed
  {
    if |listing| > 0 {
      var init := listing[..|listing| - 1];
      KeptExactly(init, allowed, name);
      assert listing == init + [listing[|listing| - 1]];
    }
  }

  /** Filtering a listing made of two parts filters each part in turn, so the
      kept names stay in listing order. */
  lemma {:induction false} KeptPreservesOrder(front: seq<string>, back: seq<string>, allowed: seq<string>)
    ensures Kept(front + back, allowed) == Kept(front, allowed) + Kept(back, allowed)
    decreases |back|
  {
    if |back| > 0 {
      var init := back[..|back| - 1];
      assert (front + back)[..|front + back| - 1] == front + init;
      KeptPreservesOrder(front, init, allowed);
    } else {
      assert front + back == front;
    }
  }

  /** Every kept name has an allowed extension. */
  lemma {:induction false} KeptExtensions(listing: seq<string>, allowed: seq<string>)
    ensures forall i :: 0 <= i < |Kept(listing, allowed)| ==> Extension(Kept(listing, allowed)[i]) in allowed
  {
    forall i | 0 <= i < |Kept(listing, allowed)|
      ensures Extension(Kept(listing, allowed)[i]) in allowed
    {
      KeptExactly(listing, allowed, Kept(listing, allowed)[i]);
    }
  }

  /** A listing without repeated names keeps none twice. */
  lemma {:induction false} KeptNoDuplicates(listing: seq<string>, allowed: seq<string>)
    requires NoDuplicates(listing)
    ensures NoDuplicates(Kept(listing, allowed))
  {
    if |listing| > 0 {
      var init := listing[..|listing| - 1];
      var name := listing[|listing| - 1];
      KeptNoDuplicates(init, allowed);
      KeptExactly(init, allowed, name);
      assert name !in init;
    }
  }

  /** Entry names that are distinct give distinct paths under one directory. */
  lemma JoinedNoDuplicates(dir: string, names: seq<string>)
    requires NoDuplicates(names)
    requires forall i :: 0 <= i < |names| ==> '/' !in names[i]
    ensures NoDuplicates(Joined(dir, names))
  {
    var paths := Joined(dir, names);
    forall i, j | 0 <= i < j < |paths|
      ensures paths[i] != paths[j]
    {
      if paths[i] == paths[j] {
        JoinInjective(dir, names[i], names[j]);
      }
    }
  }
}
