/** Byte order on strings and sorting by it, as Go's sort.Strings does. */
module StringOrder {
  import opened Base62

  ghost predicate StrictlySorted(s: seq<string>) {
    forall i, j :: 0 <= i < j < |s| ==> Less(s[i], s[j])
  }

  ghost predicate NoRepeats(s: seq<string>) {
    forall i, j :: 0 <= i < j < |s| ==> s[i] != s[j]
  }

  function Insert(a: string, s: seq<string>): seq<string> {
    if s == [] || Less(a, s[0]) then [a] + s else [s[0]] + Insert(a, s[1..])
  }

  function Sort(s: seq<string>): seq<string> {
    if s == [] then [] else Insert(s[0], Sort(s[1..]))
  }

  /** The order of dictionaries: the first difference decides, and a proper prefix comes first. */
  lemma {:induction false} LessIsLexicographic(a: string, b: string) returns (k: nat)
    ensures k <= |a| && k <= |b| && a[..k] == b[..k]
    ensures k < |a| && k < |b| ==> a[k] != b[k]
    ensures Less(a, b) <==> k < |b| && (k == |a| || a[k] < b[k])
  {
    k := 0;
    if a != "" && b != "" && a[0] == b[0] {
      k := LessIsLexicographic(a[1..], b[1..]);
      k := k + 1;
      assert a[..k] == [a[0]] + a[1..][..k - 1] && b[..k] == [b[0]] + b[1..][..k - 1];
    }
  }

  lemma {:induction false} LessIsOrder(a: string, b: string, c: string)
    ensures !Less(a, a)
    ensures Less(a, b) && Less(b, c) ==> Less(a, c)
    ensures a == b || Less(a, b) || Less(b, a)
  {
    if a != "" {
      LessIsOrder(a[1..], if b == "" then "" else b[1..], if c == "" then "" else c[1..]);
      if b != "" && a[0] == b[0] && a[1..] == b[1..] {
        assert a == [a[0]] + a[1..] && b == [b[0]] + b[1..];
      }
    }
  }

  lemma {:induction false} InsertSorts(a: string, s: seq<string>)
    requires StrictlySorted(s) && a !in s
    ensures StrictlySorted(Insert(a, s))
    ensures forall x :: x in Insert(a, s) <==> x == a || x in s
  {
    if s != [] {
      LessIsOrder(a, s[0], a);
      if Less(a, s[0]) {
        forall j | 0 <= j < |s|
          ensures Less(a, s[j])
        {
          LessIsOrder(a, s[0], s[j]);
        }
      } else {
        InsertSorts(a, s[1..]);
        var t := Insert(a, s[1..]);
        forall j | 0 <= j < |t|
          ensures Less(s[0], t[j])
        {
          assert t[j] in t;
          if t[j] != a {
            var k :| 0 <= k < |s[1..]| && s[1..][k] == t[j];
          }
        }
      }
    }
  }

  lemma {:induction false} SortSorts(s: seq<string>)
    requires NoRepeats(s)
    ensures StrictlySorted(Sort(s)) && forall x :: x in Sort(s) <==> x in s
  {
    if s != [] {
      SortSorts(s[1..]);
      InsertSorts(s[0], Sort(s[1..]));
    }
  }

  lemma {:induction false} SortedListsAgree(a: seq<string>, b: seq<string>)
    requires StrictlySorted(a) && StrictlySorted(b) && forall x :: x in a <==> x in b
    ensures a == b
  {
    if a == [] || b == [] {
      HeadIsIn(a);
      HeadIsIn(b);
    } else {
      FirstIsLeast(a, b);
      FirstIsLeast(b, a);
      LessIsOrder(a[0], b[0], a[0]);
      LessIsOrder(a[0], a[0], a[0]);
      forall x
        ensures x in a[1..] <==> x in b[1..]
      {
        TailLacksHead(a, x);
        TailLacksHead(b, x);
      }
      SortedListsAgree(a[1..], b[1..]);
      assert a == [a[0]] + a[1..] && b == [b[0]] + b[1..];
    }
  }

  lemma HeadIsIn(s: seq<string>)
    ensures s != [] ==> s[0] in s
  {
  }

  lemma FirstIsLeast(a: seq<string>, b: seq<string>)
    requires StrictlySorted(a) && a != [] && b != [] && forall x :: x in a <==> x in b
    ensures b[0] == a[0] || Less(a[0], b[0])
  {
    assert b[0] in b;
    var i :| 0 <= i < |a| && a[i] == b[0];
  }

  lemma TailLacksHead(a: seq<string>, x: string)
    requires StrictlySorted(a) && a != []
    ensures x in a[1..] <==> x in a && x != a[0]
  {
    if x in a[1..] {
      var i :| 0 <= i < |a[1..]| && a[1..][i] == x;
      LessIsOrder(a[0], a[0], a[0]);
      assert Less(a[0], a[i + 1]);
    }
  }

  /** The members of a set in order: the one strictly sorted sequence that holds them all. */
  ghost function Listing(values: set<string>): (s: seq<string>)
    ensures StrictlySorted(s) && forall x :: x in s <==> x in values
  {
    if values == {} then []
    else
      var first :| first in values;
      var rest := Listing(values - {first});
      InsertSorts(first, rest);
      Insert(first, rest)
  }
}
