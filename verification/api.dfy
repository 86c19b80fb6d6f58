/** The `/pages` endpoint of the HTTP server: the users whose pages are
    complete and public, newest directory first. */
module Api {
  import opened Config
  import opened BotState

  /** What the endpoint learns about one entry of the pages directory: its
      name, whether it is a directory, whether `checkUserFiles` holds for it,
      the `showOnMainPage` flag of its client configuration, and the
      modification time of the directory in milliseconds. */
  datatype Entry = Entry(name: string, isDir: bool, hasImage: bool, hasAudio: bool, visible: bool, mtime: int)

  /** The pages directory: absent, failing to be read, or read in `readdir` order. */
  datatype PagesDir = Missing | Unreadable | Listing(entries: seq<Entry>)

  /** The JSON body sent back: the folder names, or the error of status 500. */
  datatype Response = Folders(names: seq<string>) | Failure

  /** The entry of a user's directory as the endpoint sees it. */
  function EntryFor(name: string, f: UserFiles, mtime: int): (e: Entry)
    ensures Listed(e) <==> f.dirExists && CheckUserFiles(f) && f.showOnMainPage
  {
    Entry(name, f.dirExists, f.image.Some?, f.audio.Some?, f.showOnMainPage, mtime)
  }

  /** The filter: a directory with both assets that asked to be shown. */
  predicate Listed(e: Entry) {
    e.isDir && e.hasImage && e.hasAudio && e.visible
  }

  /** The listed entries, in their original order. */
  function Visible(es: seq<Entry>): (r: seq<Entry>)
    ensures forall e :: e in r <==> e in es && Listed(e)
    ensures |r| <= |es|
  {
    if |es| == 0 then [] else (if Listed(es[0]) then [es[0]] else []) + Visible(es[1..])
  }

  function Names(es: seq<Entry>): (ns: seq<string>)
    ensures |ns| == |es| && forall i :: 0 <= i < |es| ==> ns[i] == es[i].name
  {
    if |es| == 0 then [] else [es[0].name] + Names(es[1..])
  }

  // ---------------------------------------------------------------------------
  // The stable sort by modification time, newest first

  predicate SortedDesc(s: seq<Entry>) {
    forall i, j :: 0 <= i < j < |s| ==> s[i].mtime >= s[j].mtime
  }

  /** Put `e` in front of the first element that is not newer than it. */
  function Insert(e: Entry, s: seq<Entry>): seq<Entry> {
    if |s| == 0 || s[0].mtime <= e.mtime then [e] + s else [s[0]] + Insert(e, s[1..])
  }

  /** Insertion sort from the back, which keeps equal times in their original
      order as the comparator `b.mtime - a.mtime` of a stable sort does. */
  function SortDesc(es: seq<Entry>): seq<Entry> {
    if |es| == 0 then [] else Insert(es[0], SortDesc(es[1..]))
  }

  /** The entries with modification time `t`, in order. */
  function WithMtime(s: seq<Entry>, t: int): (r: seq<Entry>)
    ensures forall e :: e in r <==> e in s && e.mtime == t
  {
    if |s| == 0 then [] else (if s[0].mtime == t then [s[0]] else []) + WithMtime(s[1..], t)
  }

  /** The response of `GET /pages`. */
  function ListPages(dir: PagesDir): (r: Response)
    ensures dir.Missing? ==> r == Folders([])
    ensures dir.Unreadable? <==> r.Failure?
  {
    match dir
    case Missing => Folders([])
    case Unreadable => Failure
    case Listing(es) => Folders(Names(SortDesc(Visible(es))))
  }

  // ---------------------------------------------------------------------------
  // Properties

  lemma {:induction false} InsertSorted(e: Entry, s: seq<Entry>)
    requires SortedDesc(s)
    ensures SortedDesc(Insert(e, s))
    ensures |Insert(e, s)| == |s| + 1
    ensures Insert(e, s)[0] == e || Insert(e, s)[0] == s[0]
    decreases |s|
  {
    if |s| > 0 && s[0].mtime > e.mtime {
      InsertSorted(e, s[1..]);
    }
  }

  lemma {:induction false} InsertPermutes(e: Entry, s: seq<Entry>)
    ensures multiset(Insert(e, s)) == multiset{e} + multiset(s)
    decreases |s|
  {
    if |s| > 0 && s[0].mtime > e.mtime {
      InsertPermutes(e, s[1..]);
      assert s == [s[0]] + s[1..];
    }
  }

  lemma {:induction false} InsertStable(e: Entry, s: seq<Entry>, t: int)
    ensures WithMtime(Insert(e, s), t) == (if e.mtime == t then [e] else []) + WithMtime(s, t)
    decreases |s|
  {
    var r := Insert(e, s);
    if |s| > 0 && s[0].mtime > e.mtime {
      var tail := Insert(e, s[1..]);
      assert r == [s[0]] + tail;
      assert r[0] == s[0] && r[1..] == tail;
      InsertStable(e, s[1..], t);
      assert WithMtime(r, t) == (if s[0].mtime == t then [s[0]] else []) + WithMtime(tail, t);
      assert WithMtime(s, t) == (if s[0].mtime == t then [s[0]] else []) + WithMtime(s[1..], t);
    } else {
      assert r == [e] + s;
      assert r[0] == e && r[1..] == s;
    }
  }

  /** The result is ordered newest first. */
  lemma {:induction false} SortDescSorted(es: seq<Entry>)
    ensures SortedDesc(SortDesc(es))
    decreases |es|
  {
    if |es| > 0 {
      SortDescSorted(es[1..]);
      InsertSorted(es[0], SortDesc(es[1..]));
    }
  }

  /** The result holds exactly the entries given, as many times each. */
  lemma {:induction false} SortDescPermutes(es: seq<Entry>)
    ensures multiset(SortDesc(es)) == multiset(es)
    decreases |es|
  {
    if |es| > 0 {
      SortDescPermutes(es[1..]);
      InsertPermutes(es[0], SortDesc(es[1..]));
      assert es == [es[0]] + es[1..];
    }
  }

  /** Entries with the same modification time keep their original order. */
  lemma {:induction false} SortDescStable(es: seq<Entry>, t: int)
    ensures WithMtime(SortDesc(es), t) == WithMtime(es, t)
    decreases |es|
  {
    if |es| > 0 {
      SortDescStable(es[1..], t);
      InsertStable(es[0], SortDesc(es[1..]), t);
    }
  }

  /** The filter keeps the listed entries of each modification time in the
      order `readdir` gave them. */
  lemma {:induction false} VisibleInOrder(es: seq<Entry>, t: int)
    ensures WithMtime(Visible(es), t) == Visible(WithMtime(es, t))
    decreases |es|
  {
    if |es| > 0 {
      VisibleInOrder(es[1..], t);
      var head := if Listed(es[0]) then [es[0]] else [];
      var v := Visible(es);
      assert v == head + Visible(es[1..]);
      WithMtimeAppend(head, Visible(es[1..]), t);
      var w := WithMtime(es, t);
      var whead := if es[0].mtime == t then [es[0]] else [];
      assert w == whead + WithMtime(es[1..], t);
      VisibleAppend(whead, WithMtime(es[1..], t));
    }
  }

  lemma {:induction false} WithMtimeAppend(a: seq<Entry>, b: seq<Entry>, t: int)
    ensures WithMtime(a + b, t) == WithMtime(a, t) + WithMtime(b, t)
    decreases |a|
  {
    if |a| > 0 {
      assert (a + b)[0] == a[0] && (a + b)[1..] == a[1..] + b;
      WithMtimeAppend(a[1..], b, t);
    } else {
      assert a + b == b;
    }
  }

  lemma {:induction false} VisibleAppend(a: seq<Entry>, b: seq<Entry>)
    ensures Visible(a + b) == Visible(a) + Visible(b)
    decreases |a|
  {
    if |a| > 0 {
      assert (a + b)[0] == a[0] && (a + b)[1..] == a[1..] + b;
      VisibleAppend(a[1..], b);
    } else {
      assert a + b == b;
    }
  }

  /** The names sent back are those of the listed entries sorted newest first;
      entries with the same modification time appear in `readdir` order. */
  lemma ListPagesOrder(es: seq<Entry>) returns (s: seq<Entry>)
    ensures ListPages(Listing(es)).names == Names(s)
    ensures SortedDesc(s)
    ensures multiset(s) == multiset(Visible(es))
    ensures forall t :: WithMtime(s, t) == Visible(WithMtime(es, t))
  {
    s := SortDesc(Visible(es));
    SortDescSorted(Visible(es));
    SortDescPermutes(Visible(es));
    forall t ensures WithMtime(s, t) == Visible(WithMtime(es, t)) {
      SortDescStable(Visible(es), t);
      VisibleInOrder(es, t);
    }
  }

  /** A name is listed exactly when some entry of that name passes the filter. */
  lemma ListedIff(es: seq<Entry>, n: string)
    ensures n in ListPages(Listing(es)).names <==> exists e :: e in es && Listed(e) && e.name == n
  {
    var v := Visible(es);
    var s := SortDesc(v);
    SortDescPermutes(v);
    assert forall e :: e in s <==> e in v by {
      forall e ensures e in s <==> e in v {
        assert e in s <==> e in multiset(s);
      }
    }
    if n in Names(s) {
      var i :| 0 <= i < |s| && Names(s)[i] == n;
      assert s[i] in s;
    }
    if exists e :: e in es && Listed(e) && e.name == n {
      var e :| e in es && Listed(e) && e.name == n;
      assert e in s;
      var i :| 0 <= i < |s| && s[i] == e;
      assert Names(s)[i] == n;
    }
  }

  /** With the distinct names a directory has, each name is listed once. */
  lemma ListedOnce(es: seq<Entry>)
    requires Distinct(Names(es))
    ensures Distinct(ListPages(Listing(es)).names)
  {
    DistinctNamesIff(es);
    VisibleDistinct(es);
    SortDescDistinct(Visible(es));
    DistinctNamesIff(SortDesc(Visible(es)));
  }

  predicate DistinctNames(s: seq<Entry>) {
    forall i, j :: 0 <= i < j < |s| ==> s[i].name != s[j].name
  }

  lemma DistinctNamesIff(s: seq<Entry>)
    ensures DistinctNames(s) <==> Distinct(Names(s))
  {
    var ns := Names(s);
    assert forall i :: 0 <= i < |s| ==> ns[i] == s[i].name;
  }

  lemma {:induction false} VisibleDistinct(es: seq<Entry>)
    requires DistinctNames(es)
    ensures DistinctNames(Visible(es))
    decreases |es|
  {
    if |es| > 0 {
      VisibleDistinct(es[1..]);
      var rest := Visible(es[1..]);
      if Listed(es[0]) {
        forall i | 0 <= i < |rest| ensures rest[i].name != es[0].name {
          assert rest[i] in es[1..];
          var k :| 0 <= k < |es| - 1 && es[1..][k] == rest[i];
          assert es[k + 1] == rest[i];
        }
        assert Visible(es) == [es[0]] + rest;
      } else {
        assert Visible(es) == rest;
      }
    }
  }

  lemma {:induction false} InsertDistinct(e: Entry, s: seq<Entry>)
    requires DistinctNames(s) && forall x :: x in s ==> x.name != e.name
    ensures DistinctNames(Insert(e, s))
    decreases |s|
  {
    var r := Insert(e, s);
    if |s| > 0 && s[0].mtime > e.mtime {
      var tail := Insert(e, s[1..]);
      assert r == [s[0]] + tail;
      assert forall x :: x in s[1..] ==> x in s;
      InsertDistinct(e, s[1..]);
      InsertPermutes(e, s[1..]);
      forall i | 0 <= i < |tail| ensures tail[i].name != s[0].name {
        TailNameDiffers(e, s, tail, i);
      }
    } else {
      assert r == [e] + s;
    }
  }

  lemma TailNameDiffers(e: Entry, s: seq<Entry>, tail: seq<Entry>, i: nat)
    requires |s| > 0 && DistinctNames(s) && (forall x :: x in s ==> x.name != e.name)
    requires multiset(tail) == multiset{e} + multiset(s[1..]) && i < |tail|
    ensures tail[i].name != s[0].name
  {
    var x := tail[i];
    assert x in multiset(tail);
    if x == e {
      assert s[0] in s;
    } else {
      assert x in multiset(s[1..]);
      assert x in s[1..];
      var k :| 0 <= k < |s| - 1 && s[1..][k] == x;
      assert s[k + 1] == x;
    }
  }

  lemma {:induction false} SortDescDistinct(es: seq<Entry>)
    requires DistinctNames(es)
    ensures DistinctNames(SortDesc(es))
    decreases |es|
  {
    if |es| > 0 {
      SortDescDistinct(es[1..]);
      SortDescPermutes(es[1..]);
      forall x | x in SortDesc(es[1..]) ensures x.name != es[0].name {
        assert x in multiset(SortDesc(es[1..]));
        assert x in es[1..];
        var k :| 0 <= k < |es| - 1 && es[1..][k] == x;
        assert es[k + 1] == x;
      }
      InsertDistinct(es[0], SortDesc(es[1..]));
    }
  }
}
