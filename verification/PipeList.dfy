/**
 Access lists flattened into one metadata string: `["a", "b"]` is stored as `|a|b|`
 and the empty list as the empty string.
 */
module PipeList {
  import opened Text

  predicate PipeFree(s: string) {
    '|' !in s
  }

  predicate AllPipeFree(ids: seq<string>) {
    forall id :: id in ids ==> PipeFree(id)
  }

  /** `"|".join(ids)` */
  function Join(ids: seq<string>): string {
    if ids == [] then ""
    else if |ids| == 1 then ids[0]
    else ids[0] + "|" + Join(ids[1..])
  }

  function Encode(ids: seq<string>): string {
    if ids == [] then "" else "|" + Join(ids) + "|"
  }

  /** `s.split("|")` */
  function Split(s: string): (parts: seq<string>)
    ensures parts != [] && AllPipeFree(parts)
  {
    if s == "" then [""]
    else if s[0] == '|' then [""] + Split(s[1..])
    else
      var rest := Split(s[1..]);
      var parts := [[s[0]] + rest[0]] + rest[1..];
      assert rest[0] in rest && forall p :: p in parts ==> p == [s[0]] + rest[0] || p in rest;
      parts
  }

  /** Reads a stored list back. */
  function Decode(stored: string): seq<string> {
    if |stored| < 2 then [] else Split(stored[1..|stored| - 1])
  }

  function Needle(id: string): string {
    "|" + id + "|"
  }

  lemma {:induction false} SplitPrefix(a: string, rest: string)
    requires PipeFree(a)
    ensures Split(a) == [a]
    ensures Split(a + "|" + rest) == [a] + Split(rest)
  {
    if a == "" {
      assert a + "|" + rest == ['|'] + rest;
    } else {
      SplitPrefix(a[1..], rest);
      assert (a + "|" + rest)[1..] == a[1..] + "|" + rest;
      assert a == [a[0]] + a[1..];
    }
  }

  lemma {:induction false} SplitJoin(ids: seq<string>)
    requires ids != [] && AllPipeFree(ids)
    ensures Split(Join(ids)) == ids
  {
    assert ids[0] in ids;
    if |ids| == 1 {
      SplitPrefix(ids[0], "");
    } else {
      SplitPrefix(ids[0], Join(ids[1..]));
      SplitJoin(ids[1..]);
    }
  }

  /** Splitting the stored form gives the list back exactly when no id contains the delimiter. */
  lemma RoundTrip(ids: seq<string>)
    ensures Decode(Encode(ids)) == ids <==> AllPipeFree(ids)
  {
    if ids != [] {
      assert Encode(ids)[1..|Encode(ids)| - 1] == Join(ids);
      if AllPipeFree(ids) {
        SplitJoin(ids);
      }
    }
  }

  lemma EncodeCons(ids: seq<string>)
    requires ids != []
    ensures Encode(ids) == "|" + ids[0] + if |ids| == 1 then "|" else Encode(ids[1..])
  {
  }

  /** In `|a` followed by a delimiter, a delimited pipe-free id starts at 0 and is `a`, or starts after `a`. */
  lemma OccursAtHead(a: string, rest: string, x: string, i: nat)
    requires PipeFree(a) && PipeFree(x)
    requires rest != "" && rest[0] == '|'
    requires OccursAt("|" + a + rest, Needle(x), i)
    ensures (i == 0 && x == a) || (i >= 1 + |a| && OccursAt(rest, Needle(x), i - 1 - |a|))
  {
    var s, n := "|" + a + rest, Needle(x);
    assert forall k :: 0 <= k < |n| ==> s[i + k] == s[i..i + |n|][k] == n[k];
    assert forall k :: 1 <= k < 1 + |a| ==> s[k] == a[k - 1];
    assert forall k :: 1 <= k < 1 + |x| ==> n[k] == x[k - 1];
    assert s[1 + |a|] == n[0] == n[1 + |x|] == '|';
    if i == 0 {
      assert |x| == |a|;
      assert forall k :: 0 <= k < |a| ==> s[1 + k] == a[k] && n[1 + k] == x[k];
    } else {
      assert s[i + 0] == '|';
      assert i >= 1 + |a|;
      assert rest[i - 1 - |a|..i - 1 - |a| + |n|] == s[i..i + |n|];
    }
  }

  lemma OccursInTail(a: string, rest: string, n: string, j: nat)
    requires OccursAt(rest, n, j)
    ensures OccursAt("|" + a + rest, n, j + 1 + |a|)
  {
  }

  /** Membership in the list is a substring test on its stored form. */
  lemma {:induction false} EncodeExact(ids: seq<string>, x: string)
    requires AllPipeFree(ids) && PipeFree(x)
    ensures Contains(Encode(ids), Needle(x)) <==> x in ids
  {
    if ids != [] {
      var a, rest := ids[0], if |ids| == 1 then "|" else Encode(ids[1..]);
      EncodeCons(ids);
      assert a in ids;
      if |ids| > 1 {
        EncodeExact(ids[1..], x);
      }
      if i: nat :| i <= |Encode(ids)| && OccursAt(Encode(ids), Needle(x), i) {
        OccursAtHead(a, rest, x, i);
        if x != a {
          assert OccursAt(rest, Needle(x), i - 1 - |a|);
          assert |ids| > 1 && Contains(Encode(ids[1..]), Needle(x));
        }
      }
      if x == a {
        assert Encode(ids)[0..|Needle(x)|] == Needle(x);
        assert OccursAt(Encode(ids), Needle(x), 0);
      } else if x in ids {
        assert x in ids[1..];
        var j: nat :| j <= |rest| && OccursAt(rest, Needle(x), j);
        OccursInTail(a, rest, Needle(x), j);
      }
    }
  }

  lemma WrapIsEncode(ids: seq<string>)
    requires ids != []
    ensures "|" + Encode(ids) + "|" == Encode([""] + ids + [""])
  {
    var padded := [""] + ids + [""];
    assert padded[1..] == ids + [""] && padded[0] == "";
    calc {
      Join(padded);
      "" + "|" + Join(ids + [""]);
      { JoinSnoc(ids, ""); }
      "" + "|" + (Join(ids) + "|" + "");
      "|" + Join(ids) + "|";
    }
  }

  /** The same test on the stored form wrapped in another pair of delimiters, as ChromaDB metadata is read. */
  lemma WrappedExact(ids: seq<string>, x: string)
    requires AllPipeFree(ids) && PipeFree(x)
    ensures Contains("|" + Encode(ids) + "|", Needle(x)) <==> x in ids || x == ""
  {
    if ids == [] {
      assert "|" + Encode(ids) + "|" == Encode([""]);
      EncodeExact([""], x);
    } else {
      WrapIsEncode(ids);
      EncodeExact([""] + ids + [""], x);
    }
  }

  lemma {:induction false} JoinSnoc(ids: seq<string>, x: string)
    requires ids != []
    ensures Join(ids + [x]) == Join(ids) + "|" + x
  {
    if |ids| > 1 {
      JoinSnoc(ids[1..], x);
      assert (ids + [x])[1..] == ids[1..] + [x];
    } else {
      assert (ids + [x])[1..] == [x];
    }
  }
}
