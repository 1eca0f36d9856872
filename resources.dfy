/** File resources of `peak/web/resources.py`: the property name of a file,
    the index of a directory by dotted filename prefixes, item lookup with
    its cache, and the request methods a file answers. */
module Resources {
  import opened Base

  type Obj = nat

  // ---------------------------------------------------------------------
  // filenameAsProperty
  // ---------------------------------------------------------------------

  /** The parts that are not empty (`filter(None, parts)`). */
  function NonEmpty(ps: seq<string>): (r: seq<string>)
    ensures forall i :: 0 <= i < |r| ==> r[i] != [] && r[i] in ps
    decreases |ps|
  {
    if ps == [] then []
    else if ps[0] == [] then NonEmpty(ps[1..])
    else [ps[0]] + NonEmpty(ps[1..])
  }

  /** The property name of a filename: its non-empty dot-separated parts
      in reverse order, joined by dots. */
  function FilenameAsProperty(name: string): string
  {
    Join(Reverse(NonEmpty(Split(name, '.'))), '.')
  }

  lemma {:induction false} NonEmptyKeeps(ps: seq<string>)
    requires forall i :: 0 <= i < |ps| ==> ps[i] != []
    ensures NonEmpty(ps) == ps
    decreases |ps|
  {
    if ps != [] {
      NonEmptyKeeps(ps[1..]);
      assert [ps[0]] + ps[1..] == ps;
    }
  }

  /** The parts of a property name are the filename's non-empty parts,
      reversed; none is empty and none holds a dot. */
  lemma PropertyParts(name: string)
    ensures var ps := Reverse(NonEmpty(Split(name, '.')));
      (ps == [] ==> FilenameAsProperty(name) == "")
      && (ps != [] ==> Split(FilenameAsProperty(name), '.') == ps)
      && forall i :: 0 <= i < |ps| ==> ps[i] != "" && '.' !in ps[i]
  {
    var parts := Split(name, '.');
    var ne := NonEmpty(parts);
    var ps := Reverse(ne);
    forall i | 0 <= i < |ps|
      ensures ps[i] != "" && '.' !in ps[i]
    {
      assert ps[i] == ne[|ne| - 1 - i];
      var j :| 0 <= j < |parts| && parts[j] == ne[|ne| - 1 - i];
    }
    if ps != [] {
      SplitJoin(ps, '.');
    }
  }

  /** Converting a property name back reverses the parts again: the
      filename comes back with its empty parts dropped, and unchanged when
      it has none. */
  lemma PropertyRoundTrip(name: string)
    ensures FilenameAsProperty(FilenameAsProperty(name)) == Join(NonEmpty(Split(name, '.')), '.')
    ensures (forall i :: 0 <= i < |Split(name, '.')| ==> Split(name, '.')[i] != []) ==>
      FilenameAsProperty(FilenameAsProperty(name)) == name
  {
    var ne := NonEmpty(Split(name, '.'));
    var ps := Reverse(ne);
    PropertyParts(name);
    if ps == [] {
      assert ne == [];
      assert Split("", '.') == [[]];
      assert NonEmpty([[]]) == [];
    } else {
      NonEmptyKeeps(ps);
      ReverseReverse(ne);
    }
    if forall i :: 0 <= i < |Split(name, '.')| ==> Split(name, '.')[i] != [] {
      NonEmptyKeeps(Split(name, '.'));
      JoinSplit(name, '.');
    }
  }

  // ---------------------------------------------------------------------
  // The filename index
  // ---------------------------------------------------------------------

  /** A directory entry that is not `.` or `..`. */
  predicate Listed(f: string)
  {
    f != "." && f != ".."
  }

  /** The dot-prefixes of a filename: its first one, two, ... dot-separated
      parts joined again, shortest first. */
  function Prefixes(f: string): (r: seq<string>)
    ensures |r| == |Split(f, '.')|
    ensures forall i :: 0 <= i < |r| ==> r[i] == Join(Split(f, '.')[..i + 1], '.')
  {
    var parts := Split(f, '.');
    seq(|parts|, i requires 0 <= i < |parts| => Join(parts[..i + 1], '.'))
  }

  /** The listed filenames that have `k` as a dot-prefix, in listing
      order. */
  function Matches(listing: seq<string>, k: string): seq<string>
    decreases |listing|
  {
    if listing == [] then []
    else
      var f := listing[|listing| - 1];
      Matches(listing[..|listing| - 1], k) + (if Listed(f) && k in Prefixes(f) then [f] else [])
  }

  /** The index entry for `k` holds only listed filenames that have `k` as
      a dot-prefix, no more of them than the listing has. */
  lemma {:induction false} MatchesListed(listing: seq<string>, k: string)
    ensures |Matches(listing, k)| <= |listing|
    ensures forall i :: 0 <= i < |Matches(listing, k)| ==>
      var f := Matches(listing, k)[i]; f in listing && Listed(f) && k in Prefixes(f)
    decreases |listing|
  {
    if listing != [] {
      var front := listing[..|listing| - 1];
      MatchesListed(front, k);
      forall f | f in front
        ensures f in listing
      {
        var j :| 0 <= j < |front| && front[j] == f;
        assert listing[j] == f;
      }
    }
  }

  /** The entry of the index for `k`, nothing when it has none. */
  function Get(nms: map<string, seq<string>>, k: string): seq<string>
  {
    if k in nms then nms[k] else []
  }

  /** A longer dot-prefix is a longer string. */
  lemma {:induction false} PrefixesGrow(f: string, a: nat, b: nat)
    requires a < b < |Prefixes(f)|
    ensures |Prefixes(f)[a]| < |Prefixes(f)[b]|
    decreases b - a
  {
    var parts := Split(f, '.');
    assert parts[..b + 1] == parts[..b] + [parts[b]];
    JoinSnoc(parts[..b], parts[b], '.');
    if a < b - 1 {
      PrefixesGrow(f, a, b - 1);
    }
  }

  lemma PrefixesDistinct(f: string)
    ensures Distinct(Prefixes(f))
  {
    forall a, b | 0 <= a < b < |Prefixes(f)|
      ensures Prefixes(f)[a] != Prefixes(f)[b]
    {
      PrefixesGrow(f, a, b);
    }
  }

  /** The index with filename `f` added under each of its dot-prefixes. */
  method AddPrefixes(nms: map<string, seq<string>>, f: string) returns (r: map<string, seq<string>>)
    requires forall k :: k in nms ==> nms[k] != []
    ensures forall k :: k in r ==> r[k] != []
    ensures forall k :: Get(r, k) == Get(nms, k) + (if k in Prefixes(f) then [f] else [])
  {
    var parts := Split(f, '.');
    var ps := Prefixes(f);
    PrefixesDistinct(f);
    r := nms;
    var i := 1;
    while i <= |parts|
      invariant 1 <= i <= |parts| + 1
      invariant forall k :: k in r ==> r[k] != []
      invariant forall k :: Get(r, k) == Get(nms, k) + (if k in ps[..i - 1] then [f] else [])
    {
      var key := Join(parts[..i], '.');
      assert key == ps[i - 1];
      assert key !in ps[..i - 1];
      assert ps[..i] == ps[..i - 1] + [key];
      r := r[key := Get(r, key) + [f]];
      i := i + 1;
    }
    assert ps[..i - 1] == ps;
  }

  /** `filenames`: every dot-prefix of each listed filename, with the
      filenames that have it, in listing order. */
  method Filenames(listing: seq<string>) returns (nms: map<string, seq<string>>)
    ensures forall k :: k in nms <==> Matches(listing, k) != []
    ensures forall k :: k in nms ==> nms[k] == Matches(listing, k)
  {
    nms := map[];
    var i := 0;
    while i < |listing|
      invariant i <= |listing|
      invariant forall k :: k in nms ==> nms[k] != []
      invariant forall k :: Get(nms, k) == Matches(listing[..i], k)
    {
      var f := listing[i];
      assert listing[..i + 1][..i] == listing[..i] && listing[..i + 1][i] == f;
      if Listed(f) {
        nms := AddPrefixes(nms, f);
      }
      i := i + 1;
    }
    assert listing[..i] == listing;
    forall k
      ensures k in nms <==> Matches(listing, k) != []
    {
      assert Get(nms, k) == Matches(listing, k);
    }
  }

  /** The index holds a filename under a key exactly when the filename is
      listed and has the key as a dot-prefix. */
  lemma {:induction false} MatchesMembers(listing: seq<string>, k: string, f: string)
    ensures f in Matches(listing, k) <==> f in listing && Listed(f) && k in Prefixes(f)
    decreases |listing|
  {
    if listing != [] {
      var front := listing[..|listing| - 1];
      MatchesMembers(front, k, f);
      assert listing == front + [listing[|listing| - 1]];
    }
  }

  /** Every listed filename is its own longest dot-prefix. */
  lemma OwnPrefix(f: string)
    ensures f in Prefixes(f)
  {
    var parts := Split(f, '.');
    JoinSplit(f, '.');
    assert parts[..|parts|] == parts;
    assert Prefixes(f)[|parts| - 1] == f;
  }

  // ---------------------------------------------------------------------
  // Item lookup
  // ---------------------------------------------------------------------

  /** The file a name selects among the files it prefixes: the name itself
      when it is one of them, the only one when there is one, and none when
      there is none or several do and the name is not among them. */
  function Choose(targets: seq<string>, name: string): (r: Option<string>)
    ensures r.None? <==> |targets| == 0 || (|targets| > 1 && name !in targets)
    ensures r.Some? ==> r.value in targets
    ensures name in targets ==> r == Some(name)
    ensures name !in targets && |targets| == 1 ==> r == Some(targets[0])
  {
    if |targets| < 1 then None
    else if |targets| > 1 && name !in targets then None
    else if name in targets then Some(name)
    else Some(targets[0])
  }

  /** A listed filename asked for by its full name selects itself;
      a prefix of only one listed filename selects that file; a prefix of
      several that is none of them selects nothing. */
  lemma ChooseListed(listing: seq<string>, name: string)
    ensures name in listing && Listed(name) ==> Choose(Matches(listing, name), name) == Some(name)
    ensures forall f :: Matches(listing, name) == [f] ==> Choose(Matches(listing, name), name) == Some(f)
    ensures (name !in listing || !Listed(name)) && |Matches(listing, name)| > 1 ==> Choose(Matches(listing, name), name).None?
  {
    MatchesMembers(listing, name, name);
    if name in listing && Listed(name) {
      OwnPrefix(name);
    }
  }

  /** What the cache remembers of a name: that it is not visible, or the
      object it gave. */
  datatype Cached = Hidden | Found(obj: Obj)

  /** `__getitem__` with targets taken from the index: the result and the
      new cache. Visibility is decided by `visible` on the property name and
      the object built for a file by `restore`. */
  function Lookup(index: map<string, seq<string>>, cache: map<string, Cached>, name: string,
                  visible: string -> bool, restore: string -> Obj): (r: (Result<Obj, string>, map<string, Cached>))
    ensures r.0.Err? ==> r.0.error == name
    ensures forall k :: k in cache ==> k in r.1 && (k != name ==> r.1[k] == cache[k])
    ensures forall k :: k in r.1 ==> k in cache || k == name
  {
    var filename := Choose(Get(index, name), name);
    if filename.None? then (Err(name), cache)
    else if name in cache then (if cache[name].Hidden? then Err(name) else Ok(cache[name].obj), cache)
    else if !visible(FilenameAsProperty(filename.value)) then (Err(name), cache[name := Hidden])
    else (Ok(restore(filename.value)), cache[name := Found(restore(filename.value))])
  }

  /** A second lookup of a name gives what the first gave and leaves the
      cache alone, whatever visibility and objects would say by then: a
      name found not visible stays missing, and a found object is returned
      as is. */
  lemma LookupCached(index: map<string, seq<string>>, cache: map<string, Cached>, name: string,
                     visible: string -> bool, restore: string -> Obj, visible': string -> bool, restore': string -> Obj)
    ensures var first := Lookup(index, cache, name, visible, restore);
      Lookup(index, first.1, name, visible', restore') == first
  {
  }

  /** A lookup fails exactly when the name selects no file or the file is
      not visible; otherwise it gives the object built for the selected
      file, unless one is cached; and it only ever caches the name asked
      for. */
  lemma LookupRules(index: map<string, seq<string>>, cache: map<string, Cached>, name: string,
                    visible: string -> bool, restore: string -> Obj)
    ensures var r := Lookup(index, cache, name, visible, restore);
      var c := Choose(Get(index, name), name);
      && (c.None? ==> r == (Err(name), cache))
      && (c.Some? && name !in cache ==>
            (r.0.Ok? <==> visible(FilenameAsProperty(c.value)))
            && (r.0.Ok? ==> r.0.value == restore(c.value)))
      && (c.Some? && name in cache ==> r.1 == cache && (r.0.Ok? <==> cache[name].Found?))
      && (forall k :: k != name ==> (k in r.1 <==> k in cache))
      && (forall k :: k != name && k in cache ==> r.1[k] == cache[k])
  {
  }

  /** A directory of file resources: its filename index and its cache. */
  class ResourceDirectory {
    const filenames: map<string, seq<string>>
    var cache: map<string, Cached>

    constructor (listing: seq<string>)
      ensures forall k :: k in filenames <==> Matches(listing, k) != []
      ensures forall k :: k in filenames ==> filenames[k] == Matches(listing, k)
      ensures cache == map[]
    {
      var nms := Filenames(listing);
      filenames := nms;
      cache := map[];
    }

    /** `__getitem__(name)`. */
    method GetItem(name: string, visible: string -> bool, restore: string -> Obj) returns (r: Result<Obj, string>)
      modifies this`cache
      ensures (r, cache) == Lookup(filenames, old(cache), name, visible, restore)
    {
      var targets := if name in filenames then filenames[name] else [];
      if |targets| < 1 {
        return Err(name);
      } else if |targets| > 1 && name !in targets {
        return Err(name);
      }
      if name in cache {
        var result := cache[name];
        if result.Hidden? {
          return Err(name);
        }
        return Ok(result.obj);
      }
      var filename := if name in targets then name else targets[0];
      var prop := FilenameAsProperty(filename);
      if !visible(prop) {
        cache := cache[name := Hidden];
        return Err(name);
      }
      var obj := restore(filename);
      cache := cache[name := Found(obj)];
      return Ok(obj);
    }
  }

  // ---------------------------------------------------------------------
  // FileResource.handle_http
  // ---------------------------------------------------------------------

  /** The replies of a file resource: the rejection of a path below it or
      of a method, `304 Not Modified`, or `200 OK` with headers and, for
      `GET` only, the file's data. */
  datatype Reply = NotFound(name: string) | UnsupportedMethod | NotModified
                 | Served(headers: seq<(string, string)>, withData: bool)

  /** `handle_http`: `next` is the next path segment, `clientHas` whether
      the client's copy is current, `size` the file's size. */
  function HandleHttp(next: Option<string>, requestMethod: string, clientHas: bool, size: nat, mimeType: Option<string>): (r: Reply)
    ensures r.NotFound? <==> next.Some?
    ensures r.Served? ==> !clientHas && 1 <= |r.headers| <= 2 && r.headers[0].0 == "Content-Length"
  {
    var m := Upper(requestMethod);
    if next.Some? then NotFound(next.value)
    else if m != "GET" && m != "HEAD" then UnsupportedMethod
    else if clientHas then NotModified
    else
      var headers := [("Content-Length", NatToString(size))]
        + (if mimeType.Some? && mimeType.value != "" then [("Content-Type", mimeType.value)] else []);
      Served(headers, m == "GET")
  }

  /** A file has no sub-objects; only `GET` and `HEAD`, in any case, are
      answered, and only `GET` sends the data; the length header always
      comes first. */
  lemma MethodGating(next: Option<string>, requestMethod: string, clientHas: bool, size: nat, mimeType: Option<string>)
    ensures var r := HandleHttp(next, requestMethod, clientHas, size, mimeType);
      var m := Upper(requestMethod);
      && (r.NotFound? <==> next.Some?)
      && (r.UnsupportedMethod? <==> next.None? && m != "GET" && m != "HEAD")
      && (r.Served? <==> next.None? && (m == "GET" || m == "HEAD") && !clientHas)
      && (r.Served? ==> r.withData == (m == "GET") && r.headers[0] == ("Content-Length", NatToString(size)))
  {
  }

  /** A lower-case `get` is served with its data, `post` is refused, and a
      path below the file is not found. */
  lemma MethodExamples()
    ensures HandleHttp(None, "get", false, 3, None).Served?
    ensures HandleHttp(None, "get", false, 3, None).withData
    ensures HandleHttp(None, "head", false, 3, None) == Served([("Content-Length", NatToString(3))], false)
    ensures HandleHttp(None, "post", false, 3, None) == UnsupportedMethod
    ensures HandleHttp(Some("subitem"), "GET", false, 3, None) == NotFound("subitem")
  {
    assert Upper("get") == "GET";
    assert Upper("head") == "HEAD";
    assert Upper("post") == "POST";
  }
}
