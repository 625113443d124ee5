/** Account addresses: construction, parenthood and the ancestor iterator. */
module Address {
  import opened Wrappers

  /** The text of an address. `Valid` says which texts the constructor accepts. */
  type Address = string

  datatype AddressError =
    | EmptyPath
    | EmptyPathSegment
    | MissingStartingSlash
    | InvalidEndingSlash
    | InvalidCharacter(c: char)

  predicate Allowed(c: char) {
    'a' <= c <= 'z' || 'A' <= c <= 'Z' || '0' <= c <= '9' || c == '.' || c == '-' || c == '_'
  }

  predicate IsSegment(s: string) {
    s != "" && forall i :: 0 <= i < |s| ==> Allowed(s[i])
  }

  /** Every segment preceded by a slash. */
  function Join(segments: seq<string>): string {
    if segments == [] then "" else Join(segments[..|segments| - 1]) + "/" + segments[|segments| - 1]
  }

  predicate AllSegments(segments: seq<string>) {
    forall i :: 0 <= i < |segments| ==> IsSegment(segments[i])
  }

  /** One or more non-empty segments over the allowed characters. */
  ghost predicate Valid(a: Address) {
    exists segments :: segments != [] && AllSegments(segments) && a == Join(segments)
  }

  // ---- The constructor ----

  /** The first i characters of a path hold no defect. */
  ghost predicate Clean(path: string, i: int) {
    && 1 <= i <= |path|
    && path[0] == '/'
    && (forall k :: 0 < k < i ==> Allowed(path[k]) || path[k] == '/')
    && (forall k :: 0 < k < i && path[k] == '/' ==> path[k - 1] != '/')
  }

  lemma AppendClean(a: string, last: string)
    requires a == "" || (Clean(a, |a|) && Allowed(a[|a| - 1]))
    requires IsSegment(last)
    ensures Clean(a + "/" + last, |a + "/" + last|)
    ensures Allowed((a + "/" + last)[|a| + |last|])
  {
    var b := a + "/" + last;
    forall k | 0 < k < |b|
      ensures (Allowed(b[k]) || b[k] == '/') && (b[k] == '/' ==> b[k - 1] != '/')
    {
      if k < |a| {
        assert b[k] == a[k] && b[k - 1] == a[k - 1];
      } else if k == |a| {
        assert b[k] == '/' && b[k - 1] == a[k - 1];
      } else {
        assert b[k] == last[k - |a| - 1];
      }
    }
    assert b[0] == if a == "" then '/' else a[0];
    assert b[|a| + |last|] == last[|last| - 1];
  }

  lemma {:induction false} JoinIsClean(segments: seq<string>)
    requires segments != [] && AllSegments(segments)
    ensures Clean(Join(segments), |Join(segments)|)
    ensures Allowed(Join(segments)[|Join(segments)| - 1])
  {
    var front, last := segments[..|segments| - 1], segments[|segments| - 1];
    if front != [] {
      JoinIsClean(front);
    }
    AppendClean(Join(front), last);
  }

  lemma ValidIsClean(a: Address)
    requires Valid(a)
    ensures Clean(a, |a|) && a[|a| - 1] != '/'
  {
    var segments :| segments != [] && AllSegments(segments) && a == Join(segments);
    JoinIsClean(segments);
  }

  /** Accepts a path exactly when it is one or more non-empty segments, and otherwise names its first defect. */
  method New(path: string) returns (r: Result<Address, AddressError>)
    ensures r.Ok? <==> Valid(path)
    ensures match r
      case Ok(a) => a == path
      case Err(EmptyPath) => path == ""
      case Err(MissingStartingSlash) => path != "" && path[0] != '/'
      case Err(EmptyPathSegment) =>
        exists i :: Clean(path, i) && i < |path| && path[i - 1] == '/' && path[i] == '/'
      case Err(InvalidCharacter(c)) =>
        exists i :: Clean(path, i) && i < |path| && path[i] == c && c != '/' && !Allowed(c)
      case Err(InvalidEndingSlash) => Clean(path, |path|) && path[|path| - 1] == '/'
  {
    if Valid(path) {
      ValidIsClean(path);
    }
    if path == "" {
      return Err(EmptyPath);
    }
    if path[0] != '/' {
      return Err(MissingStartingSlash);
    }
    var segmentLen := 0;
    ghost var segments: seq<string> := [];
    for i := 1 to |path|
      invariant Clean(path, i)
      invariant 0 <= segmentLen < i && path[i - segmentLen - 1] == '/'
      invariant AllSegments(segments) && path[..i - segmentLen - 1] == Join(segments)
      invariant forall k :: i - segmentLen <= k < i ==> Allowed(path[k])
    {
      var c := path[i];
      if c == '/' {
        if segmentLen == 0 {
          return Err(EmptyPathSegment);
        }
        segments := Extend(path, segments, i - segmentLen - 1, i);
        segmentLen := 0;
      } else {
        segmentLen := segmentLen + 1;
      }
      if !(Allowed(c) || c == '/') {
        return Err(InvalidCharacter(c));
      }
    }
    if segmentLen == 0 {
      return Err(InvalidEndingSlash);
    }
    segments := Extend(path, segments, |path| - segmentLen - 1, |path|);
    assert path[..|path|] == path;
    return Ok(path);
  }

  lemma JoinOne(segments: seq<string>, last: string)
    ensures Join(segments + [last]) == Join(segments) + "/" + last
  {
    assert (segments + [last])[..|segments|] == segments;
  }

  /** The segment path[slash + 1..end] closes: it joins the segments read so far. */
  ghost function Extend(path: string, segments: seq<string>, slash: nat, end: nat): (more: seq<string>)
    requires slash + 1 < end <= |path| && path[slash] == '/'
    requires AllSegments(segments) && path[..slash] == Join(segments)
    requires IsSegment(path[slash + 1..end])
    ensures more != [] && AllSegments(more) && path[..end] == Join(more)
  {
    var last := path[slash + 1..end];
    JoinOne(segments, last);
    assert path[..end] == path[..slash] + "/" + last;
    segments + [last]
  }

  // ---- Ancestors ----

  /** Position of the last slash, or -1. */
  function LastSlash(s: string): (k: int)
    ensures -1 <= k < |s|
    ensures k >= 0 ==> s[k] == '/'
    ensures forall j :: k < j < |s| ==> s[j] != '/'
  {
    if s == "" then -1
    else if s[|s| - 1] == '/' then |s| - 1
    else LastSlash(s[..|s| - 1])
  }

  function Parent(a: Address): Option<Address> {
    var k := LastSlash(a);
    if k <= 0 then None else Some(a[..k])
  }

  /**
   * The addresses the ancestor iterator yields, nearest first. The iterator is only meant to be run on addresses that
   * the constructor accepts; here it is total, and does on every other text what its two branches do there.
   */
  function Ancestors(a: Address): seq<Address>
    decreases |a|
  {
    match Parent(a)
    case None => []
    case Some(p) => [p] + Ancestors(p)
  }

  predicate IsParentOf(a: Address, b: Address) {
    a + "/" <= b
  }

  /** The iterator and the prefix test agree, for every pair of texts; the iterator never yields the empty one. */
  lemma {:induction false} AncestorsAreParents(a: Address, b: Address)
    ensures a in Ancestors(b) <==> a != "" && IsParentOf(a, b)
    decreases |b|
  {
    var k := LastSlash(b);
    if a != "" && IsParentOf(a, b) {
      assert b[|a|] == (a + "/")[|a|] == '/';
      assert 0 < |a| <= k;
      assert b[..|a|] == a;
      if |a| < k {
        assert a + "/" == b[..|a| + 1] == b[..k][..|a| + 1];
      }
    }
    if k > 0 {
      var p := b[..k];
      AncestorsAreParents(a, p);
      if a == p {
        assert b[..k + 1] == a + "/";
      } else if IsParentOf(a, p) {
        assert a + "/" == p[..|a| + 1] == b[..|a| + 1];
      }
    }
  }

  /** Ancestors get strictly shorter, so none is yielded twice, and each is a parent of every earlier one. */
  lemma {:induction false} AncestorsDescend(a: Address, i: nat, j: nat)
    requires i < j < |Ancestors(a)|
    ensures |Ancestors(a)[j]| < |Ancestors(a)[i]| < |a|
    ensures IsParentOf(Ancestors(a)[j], Ancestors(a)[i])
    decreases |a|
  {
    var p := Parent(a).value;
    if i == 0 {
      assert Ancestors(a)[j] == Ancestors(p)[j - 1];
      AncestorsAreParents(Ancestors(p)[j - 1], p);
    } else {
      AncestorsDescend(p, i - 1, j - 1);
    }
  }

  lemma {:induction false} AncestorsDistinct(a: Address, i: nat, j: nat)
    requires i < |Ancestors(a)| && j < |Ancestors(a)| && Ancestors(a)[i] == Ancestors(a)[j]
    ensures i == j
  {
    if i < j {
      AncestorsDescend(a, i, j);
    } else if j < i {
      AncestorsDescend(a, j, i);
    }
  }

  /** A slash in a + "/" + last lies in a or is the one in between. */
  lemma SlashBound(a: string, last: string, k: nat)
    requires IsSegment(last) && k < |a| + 1 + |last| && (a + "/" + last)[k] == '/'
    ensures k <= |a|
    ensures (a + "/" + last)[..k] == a[..k]
    ensures (a + "/" + last)[k..] == a[k..] + "/" + last
    ensures k < |a| ==> a[k] == '/'
  {
    assert forall j :: |a| < j < |a| + 1 + |last| ==> (a + "/" + last)[j] == last[j - |a| - 1];
  }

  /** Cutting a valid address at a slash leaves a valid address. */
  lemma {:induction false} PrefixValid(segments: seq<string>, k: nat)
    requires segments != [] && AllSegments(segments)
    requires 0 < k < |Join(segments)| && Join(segments)[k] == '/'
    ensures Valid(Join(segments)[..k])
  {
    var front, last := segments[..|segments| - 1], segments[|segments| - 1];
    SlashBound(Join(front), last, k);
    if k == |Join(front)| {
      assert Join(front)[..k] == Join(front);
      assert front != [];
    } else {
      PrefixValid(front, k);
    }
  }

  lemma {:induction false} AncestorsValid(a: Address, b: Address)
    requires Valid(b) && a in Ancestors(b)
    ensures Valid(a)
  {
    AncestorsAreParents(a, b);
    var segments :| segments != [] && AllSegments(segments) && b == Join(segments);
    assert b[|a|] == (a + "/")[|a|] == '/';
    PrefixValid(segments, |a|);
    assert b[..|a|] == a;
  }

  class AncestorIterator {
    var current: Address

    constructor (a: Address)
      ensures current == a
    {
      current := a;
    }

    /** The search for a slash cannot fail on an address the constructor accepted. */
    method Next() returns (r: Option<Address>)
      requires Valid(current)
      modifies this
      ensures r == Parent(old(current))
      ensures current == if r.Some? then r.value else old(current)
      ensures Valid(current)
    {
      ValidIsClean(current);
      var path := current;
      var position := 0;
      while path[|path| - 1 - position] != '/'
        invariant 0 <= position < |path|
        invariant forall j :: |path| - 1 - position < j < |path| ==> path[j] != '/'
        decreases |path| - position
      {
        position := position + 1;
      }
      var slash := |path| - 1 - position;
      assert slash == LastSlash(path);
      if slash == 0 {
        return None;
      }
      ghost var segments :| segments != [] && AllSegments(segments) && path == Join(segments);
      PrefixValid(segments, slash);
      current := path[..slash];
      return Some(current);
    }
  }

  /** Driving the iterator to its end terminates and lists exactly the ancestors. */
  method CollectAncestors(a: Address) returns (all: seq<Address>)
    requires Valid(a)
    ensures all == Ancestors(a)
    ensures forall x :: x in all ==> Valid(x) && IsParentOf(x, a)
  {
    var iter := new AncestorIterator(a);
    all := [];
    var next := iter.Next();
    while next.Some?
      invariant Valid(iter.current)
      invariant next.Some? ==> iter.current == next.value && |next.value| < |a|
      invariant Ancestors(a) == all + if next.Some? then [next.value] + Ancestors(next.value) else []
      decreases if next.Some? then |next.value| + 1 else 0
    {
      all := all + [next.value];
      next := iter.Next();
    }
    forall x | x in all ensures Valid(x) && IsParentOf(x, a) {
      AncestorsValid(x, a);
      AncestorsAreParents(x, a);
    }
  }

  /** A child address: accepted exactly when the added text is itself a list of segments. */
  method Combine(a: Address, segment: string) returns (r: Result<Address, AddressError>)
    requires Valid(a)
    ensures r.Ok? <==> Valid("/" + segment)
    ensures r.Ok? ==> r.value == a + "/" + segment && IsParentOf(a, r.value) && a in Ancestors(r.value)
  {
    var combined := a + "/" + segment;
    r := New(combined);
    JoinSplits(a, segment);
    if r.Ok? {
      assert combined[..|a| + 1] == a + "/";
      AncestorsAreParents(a, combined);
      ValidIsClean(a);
    }
  }

  lemma {:induction false} JoinAppends(front: seq<string>, back: seq<string>)
    ensures Join(front + back) == Join(front) + Join(back)
  {
    if back == [] {
      assert front + back == front;
    } else {
      var init, last := back[..|back| - 1], back[|back| - 1];
      JoinAppends(front, init);
      assert (front + back)[..|front + back| - 1] == front + init;
    }
  }

  lemma JoinNothing()
    ensures Join([]) == ""
  {
  }

  /** A suffix that starts at a slash inside a valid address is itself valid. */
  lemma {:induction false} SuffixValid(segments: seq<string>, k: nat)
    requires segments != [] && AllSegments(segments)
    requires k < |Join(segments)| && Join(segments)[k] == '/'
    ensures Valid(Join(segments)[k..])
  {
    var front, last := segments[..|segments| - 1], segments[|segments| - 1];
    SlashBound(Join(front), last, k);
    var tail: seq<string> := [];
    JoinOne(front, last);
    assert segments == front + [last];
    hide Join;
    if k < |Join(front)| {
      SuffixValid(front, k);
      tail :| tail != [] && AllSegments(tail) && Join(front)[k..] == Join(tail);
    } else {
      JoinNothing();
    }
    JoinOne(tail, last);
    assert AllSegments(tail + [last]);
  }

  lemma JoinSplits(a: Address, segment: string)
    requires Valid(a)
    ensures Valid(a + "/" + segment) <==> Valid("/" + segment)
  {
    var whole := a + "/" + segment;
    if Valid(whole) {
      var segments :| segments != [] && AllSegments(segments) && whole == Join(segments);
      SuffixValid(segments, |a|);
      assert whole[|a|..] == "/" + segment;
    }
    if Valid("/" + segment) {
      var front :| front != [] && AllSegments(front) && a == Join(front);
      var back :| back != [] && AllSegments(back) && "/" + segment == Join(back);
      JoinAppends(front, back);
      assert whole == Join(front) + Join(back);
    }
  }
}
