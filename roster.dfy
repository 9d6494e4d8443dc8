/**
  The in-memory dog roster of the main screen: the `Dog` record, the set of
  dogs, the updates the list screen's event handlers make to it, and the
  ordered, searchable view (`filteredDogs`) derived from it.
 */
module Roster {
  import opened Strings

  datatype Option<+T> = None | Some(value: T)

  /** A roster entry; `imageUrl` is `None` when no photo was obtained. */
  datatype Dog = Dog(name: string, isLiked: bool, breed: string, imageUrl: Option<string>)

  /** The message the add screen shows when the name is taken. */
  const DuplicateNameMessage: string := "Dog with this name already exists."

  /** Roster invariant: no two entries have names equal ignoring case. */
  predicate UniqueNames(dogs: set<Dog>) {
    forall a, b :: a in dogs && b in dogs && EqualsIgnoreCase(a.name, b.name) ==> a == b
  }

  /** Case-insensitive names are unique, so exact names are unique too. */
  lemma UniqueNamesAreExact(dogs: set<Dog>, a: Dog, b: Dog)
    requires UniqueNames(dogs) && a in dogs && b in dogs && a.name == b.name
    ensures a == b
  {
    EqualsIgnoreCaseIsEquivalence(a.name, b.name, b.name);
  }

  /** `dogs.any { it.name.equals(name, ignoreCase = true) }`. */
  predicate HasNameIgnoringCase(dogs: set<Dog>, name: string) {
    exists d :: d in dogs && EqualsIgnoreCase(d.name, name)
  }

  // ---------------------------------------------------------------- add

  datatype AddOutcome = Added(dogs: set<Dog>) | DuplicateName

  /**
    The add handler: refuse a name that matches an existing one ignoring case,
    otherwise insert the dog as it is.
   */
  function TryAdd(dogs: set<Dog>, dog: Dog): (r: AddOutcome)
    ensures r.DuplicateName? <==> exists d :: d in dogs && EqualsIgnoreCase(d.name, dog.name)
    ensures r.Added? ==> dog in r.dogs && r.dogs - {dog} == dogs && |r.dogs| == |dogs| + 1
    ensures r.Added? && UniqueNames(dogs) ==> UniqueNames(r.dogs)
  {
    if HasNameIgnoringCase(dogs, dog.name) then
      DuplicateName
    else
      EqualsIgnoreCaseIsEquivalence(dog.name, dog.name, dog.name);
      assert dog !in dogs;
      var r := dogs + {dog};
      assert UniqueNames(dogs) ==> UniqueNames(r) by {
        if UniqueNames(dogs) {
          forall a, b | a in r && b in r && EqualsIgnoreCase(a.name, b.name) ensures a == b {
            EqualsIgnoreCaseIsEquivalence(a.name, b.name, dog.name);
            EqualsIgnoreCaseIsEquivalence(b.name, a.name, dog.name);
          }
        }
      }
      Added(r)
  }

  // ---------------------------------------------------------------- toggle like

  /** The like toggle applied to one entry: flipped if it carries `name`. */
  function FlipIfNamed(d: Dog, name: string): Dog {
    if d.name == name then d.(isLiked := !d.isLiked) else d
  }

  /** Flipping keeps name, breed and image, and undoes itself. */
  lemma FlipIsInvolution(d: Dog, name: string)
    ensures FlipIfNamed(FlipIfNamed(d, name), name) == d
    ensures FlipIfNamed(d, name).name == d.name
  {
  }

  /** Flipping is injective, so mapping it over a set keeps the set's size. */
  lemma {:induction false} FlipKeepsSize(dogs: set<Dog>, name: string)
    ensures |set d | d in dogs :: FlipIfNamed(d, name)| == |dogs|
    decreases dogs
  {
    if dogs != {} {
      var x :| x in dogs;
      var rest := dogs - {x};
      FlipKeepsSize(rest, name);
      var image := set d | d in dogs :: FlipIfNamed(d, name);
      var restImage := set d | d in rest :: FlipIfNamed(d, name);
      assert image == restImage + {FlipIfNamed(x, name)};
      assert FlipIfNamed(x, name) !in restImage by {
        forall d | d in rest ensures FlipIfNamed(d, name) != FlipIfNamed(x, name) {
          FlipIsInvolution(d, name);
          FlipIsInvolution(x, name);
        }
      }
    }
  }

  /**
    The like handler: an entry is in the new roster exactly when its flipped
    form (`isLiked` negated if it is named `name`, otherwise itself) was in the
    old one; the size and the invariant are kept.
   */
  function WithToggled(dogs: set<Dog>, name: string): (r: set<Dog>)
    ensures forall x {:trigger x in r} :: x in r <==> FlipIfNamed(x, name) in dogs
    ensures |r| == |dogs|
    ensures UniqueNames(dogs) ==> UniqueNames(r)
  {
    FlipKeepsSize(dogs, name);
    var r := set d | d in dogs :: FlipIfNamed(d, name);
    assert forall x {:trigger x in r} :: x in r <==> FlipIfNamed(x, name) in dogs by {
      forall x ensures x in r <==> FlipIfNamed(x, name) in dogs {
        FlipIsInvolution(x, name);
        if x in r {
          var d :| d in dogs && x == FlipIfNamed(d, name);
          FlipIsInvolution(d, name);
        }
      }
    }
    assert UniqueNames(dogs) ==> UniqueNames(r) by {
      if UniqueNames(dogs) {
        forall a, b | a in r && b in r && EqualsIgnoreCase(a.name, b.name) ensures a == b {
          FlipIsInvolution(a, name);
          FlipIsInvolution(b, name);
          assert FlipIfNamed(a, name) == FlipIfNamed(b, name);
        }
      }
    }
    r
  }

  /**
    Toggling touches only the entry named exactly `name`: its `isLiked` is
    negated and its name, breed and image stay; other entries stay as they are,
    and an absent name changes nothing.
   */
  lemma ToggleEffect(dogs: set<Dog>, name: string)
    ensures forall d :: d in dogs && d.name != name ==> d in WithToggled(dogs, name)
    ensures forall d :: d in dogs && d.name == name ==>
      Dog(d.name, !d.isLiked, d.breed, d.imageUrl) in WithToggled(dogs, name)
    ensures forall x :: x in WithToggled(dogs, name) && x.name != name ==> x in dogs
    ensures forall x :: x in WithToggled(dogs, name) && x.name == name ==>
      Dog(x.name, !x.isLiked, x.breed, x.imageUrl) in dogs
    ensures (forall d :: d in dogs ==> d.name != name) ==> WithToggled(dogs, name) == dogs
  {
    var r := WithToggled(dogs, name);
    forall d | d in dogs ensures FlipIfNamed(d, name) in r {
      FlipIsInvolution(d, name);
    }
  }

  /** Toggling the same name twice gives back the roster it started from. */
  lemma ToggleTwiceRestores(dogs: set<Dog>, name: string)
    ensures WithToggled(WithToggled(dogs, name), name) == dogs
  {
    var twice := WithToggled(WithToggled(dogs, name), name);
    forall x ensures x in twice <==> x in dogs {
      FlipIsInvolution(x, name);
    }
  }

  // ---------------------------------------------------------------- remove

  /** The remove handlers: drop every entry named exactly `name`, keep the rest. */
  function WithoutName(dogs: set<Dog>, name: string): (r: set<Dog>)
    ensures r <= dogs
    ensures forall d :: d in dogs ==> (d in r <==> d.name != name)
    ensures (forall d :: d in dogs ==> d.name != name) ==> r == dogs
    ensures UniqueNames(dogs) ==> UniqueNames(r)
  {
    set d | d in dogs && d.name != name
  }

  /** With unique names, removing a present name shrinks the roster by exactly one. */
  lemma RemoveShrinksByOne(dogs: set<Dog>, dog: Dog)
    requires UniqueNames(dogs) && dog in dogs
    ensures WithoutName(dogs, dog.name) == dogs - {dog}
    ensures |WithoutName(dogs, dog.name)| == |dogs| - 1
  {
    forall d | d in dogs && d.name == dog.name ensures d == dog {
      UniqueNamesAreExact(dogs, d, dog);
    }
  }

  // ---------------------------------------------------------------- the derived view

  /** `m` is an entry of `s` whose name no other entry's name precedes. */
  ghost predicate IsFirstByName(m: Dog, s: set<Dog>) {
    m in s && forall d :: d in s ==> NameLe(m.name, d.name)
  }

  lemma {:induction false} FirstByNameExists(s: set<Dog>)
    requires s != {}
    ensures exists m :: IsFirstByName(m, s)
    decreases s
  {
    var x :| x in s;
    NameLeReflexive(x.name);
    if s == {x} {
      assert IsFirstByName(x, s);
    } else {
      FirstByNameExists(s - {x});
      var m :| IsFirstByName(m, s - {x});
      NameLeTotal(x.name, m.name);
      if NameLe(x.name, m.name) {
        forall d | d in s ensures NameLe(x.name, d.name) {
          if d != x { NameLeTransitive(x.name, m.name, d.name); }
        }
        assert IsFirstByName(x, s);
      } else {
        assert IsFirstByName(m, s);
      }
    }
  }

  /** No entry appears twice. */
  predicate NoDuplicates(v: seq<Dog>) {
    forall i, j :: 0 <= i < j < |v| ==> v[i] != v[j]
  }

  /** Names in ascending `compareTo` order. */
  predicate NamesAscending(v: seq<Dog>) {
    forall i, j :: 0 <= i < j < |v| ==> NameLe(v[i].name, v[j].name)
  }

  /** `s.sortedBy { it.name }`: the entries of `s`, once each, in name order. */
  ghost function SortedByName(s: set<Dog>): (r: seq<Dog>)
    ensures |r| == |s|
    ensures forall d :: d in r <==> d in s
    ensures NoDuplicates(r)
    ensures NamesAscending(r)
    decreases s
  {
    if s == {} then []
    else
      FirstByNameExists(s);
      var m :| IsFirstByName(m, s);
      [m] + SortedByName(s - {m})
  }

  /** Liked entries before unliked ones; names ascending within each block. */
  predicate InViewOrder(v: seq<Dog>) {
    && (forall i, j :: 0 <= i < j < |v| && v[j].isLiked ==> v[i].isLiked)
    && (forall i, j :: 0 <= i < j < |v| && v[i].isLiked == v[j].isLiked ==> NameLe(v[i].name, v[j].name))
  }

  /** `allDogs.filter { it.name.startsWith(searchText, ignoreCase = true) }`. */
  function KeepMatching(v: seq<Dog>, searchText: string): (r: seq<Dog>)
    ensures forall d :: d in r <==> d in v && StartsWithIgnoreCase(d.name, searchText)
    ensures |r| <= |v|
  {
    if v == [] then []
    else if StartsWithIgnoreCase(v[0].name, searchText) then [v[0]] + KeepMatching(v[1..], searchText)
    else KeepMatching(v[1..], searchText)
  }

  /** `dogs.filter { it.isLiked }` and `dogs.filter { !it.isLiked }`, before sorting. */
  function LikedOnes(dogs: set<Dog>, liked: bool): set<Dog> {
    set d | d in dogs && d.isLiked == liked
  }

  /** `filteredDogs`: liked dogs by name, then unliked dogs by name, then the search. */
  ghost function DerivedView(dogs: set<Dog>, searchText: string): seq<Dog> {
    var likedDogs := SortedByName(LikedOnes(dogs, true));
    var unlikedDogs := SortedByName(LikedOnes(dogs, false));
    var allDogs := likedDogs + unlikedDogs;
    if |searchText| == 0 then allDogs else KeepMatching(allDogs, searchText)
  }

  /** `a` is `b` with some entries left out, the rest in their order. */
  predicate IsSubsequence(a: seq<Dog>, b: seq<Dog>)
    decreases |b|
  {
    if a == [] then true
    else if b == [] then false
    else (a[0] == b[0] && IsSubsequence(a[1..], b[1..])) || IsSubsequence(a, b[1..])
  }

  lemma {:induction false} KeepMatchingIsSubsequence(v: seq<Dog>, searchText: string)
    ensures IsSubsequence(KeepMatching(v, searchText), v)
    decreases |v|
  {
    if v != [] {
      KeepMatchingIsSubsequence(v[1..], searchText);
    }
  }

  lemma {:induction false} KeepMatchingKeepsOrder(v: seq<Dog>, searchText: string)
    requires InViewOrder(v) && NoDuplicates(v)
    ensures InViewOrder(KeepMatching(v, searchText)) && NoDuplicates(KeepMatching(v, searchText))
    decreases |v|
  {
    if v != [] {
      var rest := KeepMatching(v[1..], searchText);
      KeepMatchingKeepsOrder(v[1..], searchText);
      if StartsWithIgnoreCase(v[0].name, searchText) {
        var r := [v[0]] + rest;
        forall k | 0 < k < |r|
          ensures (r[k].isLiked ==> r[0].isLiked)
          ensures (r[0].isLiked == r[k].isLiked ==> NameLe(r[0].name, r[k].name))
          ensures r[0] != r[k]
        {
          assert r[k] in rest;
          var j :| 0 <= j < |v[1..]| && v[1..][j] == r[k];
          assert v[j + 1] == r[k];
        }
        assert r == KeepMatching(v, searchText);
      }
    }
  }

  /** An empty search text keeps everything, so the `isEmpty` branch changes nothing. */
  lemma {:induction false} KeepMatchingEmpty(v: seq<Dog>)
    ensures KeepMatching(v, "") == v
    decreases |v|
  {
    if v != [] {
      StartsWithIgnoreCaseBasics(v[0].name, "");
      KeepMatchingEmpty(v[1..]);
      assert v == [v[0]] + v[1..];
    }
  }

  /** A liked block followed by an unliked block, each by name, is in view order. */
  lemma BlocksInViewOrder(l: seq<Dog>, u: seq<Dog>)
    requires forall i :: 0 <= i < |l| ==> l[i].isLiked
    requires forall i :: 0 <= i < |u| ==> !u[i].isLiked
    requires NoDuplicates(l) && NoDuplicates(u) && NamesAscending(l) && NamesAscending(u)
    ensures NoDuplicates(l + u) && InViewOrder(l + u)
  {
    var v := l + u;
    forall i, j | 0 <= i < j < |v| ensures v[i] != v[j] {
      if j < |l| {
        assert v[i] == l[i] && v[j] == l[j];
      } else if i >= |l| {
        assert v[i] == u[i - |l|] && v[j] == u[j - |l|];
      } else {
        assert v[i].isLiked && !v[j].isLiked;
      }
    }
    forall i, j | 0 <= i < j < |v| && v[j].isLiked ensures v[i].isLiked {
      assert j < |l|;
    }
    forall i, j | 0 <= i < j < |v| && v[i].isLiked == v[j].isLiked
      ensures NameLe(v[i].name, v[j].name)
    {
      if j < |l| {
        assert v[i] == l[i] && v[j] == l[j];
      } else if i >= |l| {
        assert v[i] == u[i - |l|] && v[j] == u[j - |l|];
      }
    }
  }

  /** The unfiltered view: every roster entry once, liked block first, each block by name. */
  lemma UnfilteredView(dogs: set<Dog>)
    ensures forall d :: d in DerivedView(dogs, "") <==> d in dogs
    ensures |DerivedView(dogs, "")| == |dogs|
    ensures NoDuplicates(DerivedView(dogs, ""))
    ensures InViewOrder(DerivedView(dogs, ""))
  {
    var liked := LikedOnes(dogs, true);
    var unliked := LikedOnes(dogs, false);
    var l := SortedByName(liked);
    var u := SortedByName(unliked);
    assert DerivedView(dogs, "") == l + u;
    assert liked !! unliked && liked + unliked == dogs;
    assert |liked + unliked| == |liked| + |unliked|;
    forall i | 0 <= i < |l| ensures l[i].isLiked { assert l[i] in liked; }
    forall i | 0 <= i < |u| ensures !u[i].isLiked { assert u[i] in unliked; }
    BlocksInViewOrder(l, u);
  }

  /** The view shows exactly the roster entries whose name starts with the search text. */
  lemma ViewContents(dogs: set<Dog>, searchText: string)
    ensures forall d :: d in DerivedView(dogs, searchText) <==>
      d in dogs && StartsWithIgnoreCase(d.name, searchText)
  {
    UnfilteredView(dogs);
    forall d | d in dogs ensures StartsWithIgnoreCase(d.name, "") {
      StartsWithIgnoreCaseBasics(d.name, "");
    }
  }

  /**
    Any search is the unfiltered view with the non-matching entries left out,
    order kept; the result is still in view order without repeats.
   */
  lemma SearchFiltersView(dogs: set<Dog>, searchText: string)
    ensures DerivedView(dogs, searchText) == KeepMatching(DerivedView(dogs, ""), searchText)
    ensures IsSubsequence(DerivedView(dogs, searchText), DerivedView(dogs, ""))
    ensures InViewOrder(DerivedView(dogs, searchText))
    ensures NoDuplicates(DerivedView(dogs, searchText))
  {
    var all := DerivedView(dogs, "");
    UnfilteredView(dogs);
    if |searchText| == 0 {
      assert searchText == "";
      KeepMatchingEmpty(all);
    }
    KeepMatchingIsSubsequence(all, searchText);
    KeepMatchingKeepsOrder(all, searchText);
  }

  /**
    Of two duplicate-free sequences in view order over the same entries, with
    names unique, the first elements agree.
   */
  lemma SameFirstInViewOrder(v: seq<Dog>, w: seq<Dog>)
    requires v != [] && InViewOrder(v) && InViewOrder(w)
    requires forall d :: d in v <==> d in w
    requires forall a, b :: a in v && b in v && a.name == b.name ==> a == b
    ensures w != [] && v[0] == w[0]
  {
    assert v[0] in w;
    var k :| 0 <= k < |w| && w[k] == v[0];
    assert w[0] in v;
    var j :| 0 <= j < |v| && v[j] == w[0];
    if j != 0 && k != 0 {
      assert w[0].isLiked ==> v[0].isLiked;
      assert v[0].isLiked ==> w[0].isLiked;
      assert NameLe(v[0].name, w[0].name) && NameLe(w[0].name, v[0].name);
      NameLeAntisymmetric(v[0].name, w[0].name);
    }
  }

  /** Dropping the common first element of duplicate-free sequences keeps them over the same entries. */
  lemma SameRestAfterFirst(v: seq<Dog>, w: seq<Dog>)
    requires v != [] && w != [] && v[0] == w[0]
    requires NoDuplicates(v) && NoDuplicates(w)
    requires forall d :: d in v <==> d in w
    ensures forall d :: d in v[1..] <==> d in w[1..]
  {
    forall d | d in v[1..] ensures d in w[1..] {
      var i :| 0 <= i < |v[1..]| && v[1..][i] == d;
      assert v[i + 1] != v[0];
      assert d in w && d != w[0];
      var m :| 0 <= m < |w| && w[m] == d;
      assert w[1..][m - 1] == d;
    }
    forall d | d in w[1..] ensures d in v[1..] {
      var i :| 0 <= i < |w[1..]| && w[1..][i] == d;
      assert w[i + 1] != w[0];
      assert d in v && d != v[0];
      var m :| 0 <= m < |v| && v[m] == d;
      assert v[1..][m - 1] == d;
    }
  }

  lemma NoMembersMeansEmpty(v: seq<Dog>)
    ensures v == [] <==> forall d :: d !in v
  {
    if v != [] { assert v[0] in v; }
  }

  /**
    With names unique, two duplicate-free sequences in view order over the same
    entries are the same sequence.
   */
  lemma {:induction false} ViewOrderIsUnique(v: seq<Dog>, w: seq<Dog>)
    requires NoDuplicates(v) && NoDuplicates(w) && InViewOrder(v) && InViewOrder(w)
    requires forall d :: d in v <==> d in w
    requires forall a, b :: a in v && b in v && a.name == b.name ==> a == b
    ensures v == w
    decreases |v|
  {
    NoMembersMeansEmpty(v);
    NoMembersMeansEmpty(w);
    if v != [] {
      SameFirstInViewOrder(v, w);
      SameRestAfterFirst(v, w);
      ViewOrderIsUnique(v[1..], w[1..]);
      assert v == [v[0]] + v[1..] && w == [w[0]] + w[1..];
    }
  }

  /**
    The view is fully determined by its description: any duplicate-free
    sequence in view order holding exactly the matching entries is the view.
   */
  lemma ViewIsDetermined(dogs: set<Dog>, searchText: string, w: seq<Dog>)
    requires UniqueNames(dogs)
    requires NoDuplicates(w) && InViewOrder(w)
    requires forall d :: d in w <==> d in dogs && StartsWithIgnoreCase(d.name, searchText)
    ensures w == DerivedView(dogs, searchText)
  {
    var v := DerivedView(dogs, searchText);
    ViewContents(dogs, searchText);
    SearchFiltersView(dogs, searchText);
    forall a, b | a in v && b in v && a.name == b.name ensures a == b {
      UniqueNamesAreExact(dogs, a, b);
    }
    ViewOrderIsUnique(v, w);
  }

  /** The three dogs of the example below have names distinct ignoring case. */
  lemma ExampleNamesUnique(rex: Dog, ann: Dog, bo: Dog)
    requires rex.name == "Rex" && ann.name == "Ann" && bo.name == "Bo"
    ensures UniqueNames({rex, ann, bo})
  {
    assert !EqualsIgnoreCase("Rex", "Ann") by { assert LowercaseAscii("Rex"[0]) != LowercaseAscii("Ann"[0]); }
    assert !EqualsIgnoreCase("Rex", "Bo") by { assert |"Rex"| == 3 && |"Bo"| == 2; }
    assert !EqualsIgnoreCase("Ann", "Bo") by { assert |"Ann"| == 3; }
    EqualsIgnoreCaseIsEquivalence("Rex", "Ann", "Bo");
    EqualsIgnoreCaseIsEquivalence("Ann", "Bo", "Rex");
    EqualsIgnoreCaseIsEquivalence("Bo", "Rex", "Ann");
  }

  /** Rex (liked), Ann and Bo (liked) are shown as Bo, Rex, Ann. */
  lemma ViewExample(rex: Dog, ann: Dog, bo: Dog)
    requires rex == Dog("Rex", true, "Boxer", None)
    requires ann == Dog("Ann", false, "Pug", None)
    requires bo == Dog("Bo", true, "Beagle", None)
    ensures DerivedView({rex, ann, bo}, "") == [bo, rex, ann]
  {
    var dogs := {rex, ann, bo};
    ExampleNamesUnique(rex, ann, bo);
    assert NameLe("Bo", "Rex") by { assert "Bo"[0] < "Rex"[0]; }
    var w := [bo, rex, ann];
    assert InViewOrder(w);
    StartsWithIgnoreCaseBasics("Rex", "");
    StartsWithIgnoreCaseBasics("Ann", "");
    StartsWithIgnoreCaseBasics("Bo", "");
    assert NoDuplicates(w);
    assert forall d :: d in w <==> d in dogs && StartsWithIgnoreCase(d.name, "");
    ViewIsDetermined(dogs, "", w);
  }

  /** In the same roster, the search text "r" leaves only Rex. */
  lemma SearchExample(rex: Dog, ann: Dog, bo: Dog)
    requires rex == Dog("Rex", true, "Boxer", None)
    requires ann == Dog("Ann", false, "Pug", None)
    requires bo == Dog("Bo", true, "Beagle", None)
    ensures DerivedView({rex, ann, bo}, "r") == [rex]
  {
    var dogs := {rex, ann, bo};
    ExampleNamesUnique(rex, ann, bo);
    assert StartsWithIgnoreCase("Rex", "r") by { assert "Rex"[..1] == "R"; }
    assert !StartsWithIgnoreCase("Ann", "r") by {
      assert "Ann"[..1][0] == 'A' && LowercaseAscii('A') == 'a' && LowercaseAscii("r"[0]) == 'r';
    }
    assert !StartsWithIgnoreCase("Bo", "r") by {
      assert "Bo"[..1][0] == 'B' && LowercaseAscii('B') == 'b' && LowercaseAscii("r"[0]) == 'r';
    }
    assert forall d :: d in [rex] <==> d in dogs && StartsWithIgnoreCase(d.name, "r");
    ViewIsDetermined(dogs, "r", [rex]);
  }
}
