/** The text a cache key is hashed from: which lookups share a key, and which only seem to. */
module CacheKeys {

  // ---------------------------------------------------------------------
  // Sorting course ids by code points
  // ---------------------------------------------------------------------

  predicate Before(a: string, b: string) {
    a == "" || (b != "" && (a[0] < b[0] || (a[0] == b[0] && Before(a[1..], b[1..]))))
  }

  lemma {:induction false} BeforeTotal(a: string, b: string)
    ensures Before(a, b) || Before(b, a)
  {
    if a != "" && b != "" && a[0] == b[0] { BeforeTotal(a[1..], b[1..]); }
  }

  lemma {:induction false} BeforeBoth(a: string, b: string)
    requires Before(a, b) && Before(b, a)
    ensures a == b
  {
    if a != "" {
      BeforeBoth(a[1..], b[1..]);
      assert a == [a[0]] + a[1..] && b == [b[0]] + b[1..];
    }
  }

  lemma {:induction false} BeforeJoins(a: string, b: string, c: string)
    requires Before(a, b) && Before(b, c)
    ensures Before(a, c)
  {
    if a != "" && b[0] == a[0] && c[0] == b[0] { BeforeJoins(a[1..], b[1..], c[1..]); }
  }

  predicate Sorted(s: seq<string>) {
    forall i, j :: 0 <= i < j < |s| ==> Before(s[i], s[j])
  }

  function Insert(s: seq<string>, x: string): seq<string> {
    if s == [] || Before(x, s[0]) then [x] + s else [s[0]] + Insert(s[1..], x)
  }

  function SortIds(ids: seq<string>): seq<string> {
    if ids == [] then [] else Insert(SortIds(ids[1..]), ids[0])
  }

  lemma {:induction false} InsertKeeps(s: seq<string>, x: string)
    ensures multiset(Insert(s, x)) == multiset(s) + multiset{x}
  {
    if s != [] && !Before(x, s[0]) {
      InsertKeeps(s[1..], x);
      assert s == [s[0]] + s[1..];
    }
  }

  lemma {:induction false} InsertSorted(s: seq<string>, x: string)
    requires Sorted(s)
    ensures Sorted(Insert(s, x))
  {
    if s == [] {
    } else if Before(x, s[0]) {
      forall i | 0 <= i < |s| ensures Before(x, s[i]) {
        if i > 0 { BeforeJoins(x, s[0], s[i]); }
      }
    } else {
      var rest := Insert(s[1..], x);
      InsertSorted(s[1..], x);
      InsertKeeps(s[1..], x);
      BeforeTotal(x, s[0]);
      forall i | 0 <= i < |rest| ensures Before(s[0], rest[i]) {
        assert rest[i] in multiset(rest);
        if rest[i] != x {
          assert rest[i] in s[1..];
        }
      }
    }
  }

  lemma {:induction false} SortSorts(ids: seq<string>)
    ensures Sorted(SortIds(ids)) && multiset(SortIds(ids)) == multiset(ids)
  {
    if ids != [] {
      SortSorts(ids[1..]);
      InsertSorted(SortIds(ids[1..]), ids[0]);
      InsertKeeps(SortIds(ids[1..]), ids[0]);
      assert ids == [ids[0]] + ids[1..];
    }
  }

  lemma {:induction false} LeastFirst(a: seq<string>, b: seq<string>)
    requires Sorted(a) && a != [] && multiset(a) == multiset(b) && b != []
    ensures Before(a[0], b[0])
  {
    assert b[0] in multiset(a);
    var i :| 0 <= i < |a| && a[i] == b[0];
    if i == 0 { BeforeTotal(a[0], a[0]); }
  }

  lemma {:induction false} SameFirst(a: seq<string>, b: seq<string>)
    requires Sorted(a) && Sorted(b) && multiset(a) == multiset(b) && a != [] && b != []
    ensures a[0] == b[0]
  {
    LeastFirst(a, b);
    LeastFirst(b, a);
    BeforeBoth(a[0], b[0]);
  }

  lemma {:induction false} SameRest(a: seq<string>, b: seq<string>)
    requires multiset(a) == multiset(b) && a != [] && b != [] && a[0] == b[0]
    ensures multiset(a[1..]) == multiset(b[1..])
  {
    assert a == [a[0]] + a[1..] && b == [b[0]] + b[1..];
    assert multiset(a[1..]) == multiset(a) - multiset{a[0]};
    assert multiset(b[1..]) == multiset(b) - multiset{b[0]};
  }

  lemma {:induction false} SortedUnique(a: seq<string>, b: seq<string>)
    requires Sorted(a) && Sorted(b) && multiset(a) == multiset(b)
    ensures a == b
  {
    hide Before;
    assert |multiset(a)| == |a| && |multiset(b)| == |b|;
    if a != [] {
      SameFirst(a, b);
      SameRest(a, b);
      SortedUnique(a[1..], b[1..]);
      assert a == [a[0]] + a[1..] && b == [b[0]] + b[1..];
    }
  }

  // ---------------------------------------------------------------------
  // The raw key
  // ---------------------------------------------------------------------

  function Join(ids: seq<string>): string {
    if ids == [] then "" else if |ids| == 1 then ids[0] else ids[0] + "," + Join(ids[1..])
  }

  /** Normalised query, sorted courses and semester with bars between them. */
  function RawKey(query: string, courses: seq<string>, semester: string): string {
    query + "|" + Join(SortIds(courses)) + "|" + semester
  }

  predicate Plain(id: string) {
    id != "" && ',' !in id && '|' !in id
  }

  /** Text around a separator that neither tail contains splits one way. */
  lemma {:induction false} SplitLast(a: string, b: string, c: string, d: string, sep: char)
    requires a + [sep] + b == c + [sep] + d && sep !in b && sep !in d
    ensures a == c && b == d
  {
    var whole := a + [sep] + b;
    assert whole[|a|] == sep && whole[|c|] == sep;
    forall k | |a| < k < |whole| ensures whole[k] != sep {
      assert whole[k] == b[k - |a| - 1];
    }
    forall k | |c| < k < |whole| ensures whole[k] != sep {
      assert whole[k] == d[k - |c| - 1];
    }
    assert |a| == |c|;
    assert a == whole[..|a|] && c == whole[..|c|];
    assert b == whole[|a| + 1..] && d == whole[|c| + 1..];
  }

  lemma {:induction false} SplitFirst(a: string, b: string, c: string, d: string, sep: char)
    requires a + [sep] + b == c + [sep] + d && sep !in a && sep !in c
    ensures a == c && b == d
  {
    var whole := a + [sep] + b;
    assert whole[|a|] == sep && whole[|c|] == sep;
    forall k | 0 <= k < |a| ensures whole[k] != sep {
      assert whole[k] == a[k];
    }
    forall k | 0 <= k < |c| ensures whole[k] != sep {
      assert whole[k] == c[k];
    }
    assert |a| == |c|;
    assert a == whole[..|a|] && c == whole[..|c|];
    assert b == whole[|a| + 1..] && d == whole[|c| + 1..];
  }

  lemma {:induction false} JoinPlain(ids: seq<string>)
    requires forall id :: id in ids ==> Plain(id)
    ensures '|' !in Join(ids)
    ensures ids == [] <==> Join(ids) == ""
    ensures |ids| <= 1 <==> ',' !in Join(ids)
  {
    if |ids| > 1 {
      JoinPlain(ids[1..]);
      assert ids[0] in ids;
      assert Join(ids)[|ids[0]|] == ',';
    } else if |ids| == 1 {
      assert ids[0] in ids;
    }
  }

  lemma {:induction false} JoinInjective(a: seq<string>, b: seq<string>)
    requires (forall id :: id in a ==> Plain(id)) && (forall id :: id in b ==> Plain(id))
    requires Join(a) == Join(b)
    ensures a == b
  {
    JoinPlain(a);
    JoinPlain(b);
    if |a| > 1 {
      assert a[0] in a && b[0] in b;
      SplitFirst(a[0], Join(a[1..]), b[0], Join(b[1..]), ',');
      JoinInjective(a[1..], b[1..]);
      assert a == [a[0]] + a[1..] && b == [b[0]] + b[1..];
    }
  }

  /** With plain course ids and no bar in the semester, two lookups share a raw key iff they ask the same
      query for the same courses, in whatever order, in the same semester. */
  lemma {:induction false} RawKeyExact(query: string, courses: seq<string>, semester: string,
                                       query': string, courses': seq<string>, semester': string)
    requires forall id :: id in courses ==> Plain(id)
    requires forall id :: id in courses' ==> Plain(id)
    requires '|' !in semester && '|' !in semester'
    ensures RawKey(query, courses, semester) == RawKey(query', courses', semester')
            <==> query == query' && multiset(courses) == multiset(courses') && semester == semester'
  {
    hide Join, SortIds;
    var a, b := SortIds(courses), SortIds(courses');
    SortSorts(courses);
    SortSorts(courses');
    SortedPlain(courses, a);
    SortedPlain(courses', b);
    if multiset(courses) == multiset(courses') {
      SortedUnique(a, b);
    }
    if RawKey(query, courses, semester) == RawKey(query', courses', semester') {
      JoinPlain(a);
      JoinPlain(b);
      SplitLast(query + "|" + Join(a), semester, query' + "|" + Join(b), semester', '|');
      SplitLast(query, Join(a), query', Join(b), '|');
      JoinInjective(a, b);
    }
  }

  lemma {:induction false} SortedPlain(ids: seq<string>, sorted: seq<string>)
    requires multiset(ids) == multiset(sorted) && forall id :: id in ids ==> Plain(id)
    ensures forall id :: id in sorted ==> Plain(id)
  {
    forall id | id in sorted ensures Plain(id) {
      assert id in multiset(ids);
    }
  }

  /** Each exclusion is needed. Different lookups share a raw key with a bar in a semester, a comma in a course
      id, a bar in a course id, or an empty course id. */
  lemma {:induction false} SeparatorsCollide(query: string, semester: string)
    ensures RawKey(query, [], "|") == RawKey(query + "|", [], "")
    ensures RawKey(query, ["A,B"], semester) == RawKey(query, ["A", "B"], semester)
    ensures RawKey(query, ["A|B"], semester) == RawKey(query + "|A", ["B"], semester)
    ensures RawKey(query, [""], semester) == RawKey(query, [], semester)
    ensures multiset(["A,B"]) != multiset(["A", "B"]) && multiset([""]) != multiset([])
  {
    assert ["A", "B"][1..] == ["B"];
    OneId("B");
    OneId("A,B");
    OneId("A|B");
    OneId("");
    assert SortIds(["A", "B"]) == ["A", "B"];
    assert Join(["A", "B"]) == "A" + "," + Join(["B"]) == "A,B";
    assert "A,B" !in multiset(["A", "B"]) && "" in multiset([""]);
    assert query + "|" + "A|B" + "|" + semester == query + "|A" + "|" + "B" + "|" + semester;
  }

  lemma {:induction false} OneId(id: string)
    ensures SortIds([id]) == [id] && Join([id]) == id
  {
    assert [id][1..] == [];
  }
}
