/**
 * The JSON body of the `post` subcommand: the parsed `key=value` pairs,
 * inserted one after another, in command-line order, into an initially
 * empty map. A later pair with the same key overwrites an earlier one.
 */
module PostBody {
  import opened KvParse

  /** The arguments of the `post` subcommand once parsed. */
  datatype Post = Post(url: string, body: seq<KvPair>)

  /** The map obtained by inserting `pairs` in order into an empty map. */
  function BodyOf(pairs: seq<KvPair>): (body: map<string, string>)
  {
    if pairs == [] then map[]
    else
      var last := pairs[|pairs| - 1];
      BodyOf(pairs[..|pairs| - 1])[last.k := last.v]
  }

  /** The keys that appear somewhere in `pairs`. */
  function KeysOf(pairs: seq<KvPair>): (keys: set<string>)
  {
    set i | 0 <= i < |pairs| :: pairs[i].k
  }

  /** No pair after position `i` has the key of the pair at `i`. */
  ghost predicate LastWithKey(pairs: seq<KvPair>, i: int)
  {
    && 0 <= i < |pairs|
    && forall j :: i < j < |pairs| ==> pairs[j].k != pairs[i].k
  }

  /**
   * Builds the request body of `args`: a loop that inserts each pair into a
   * map that starts empty.
   */
  method BuildBody(args: Post) returns (body: map<string, string>)
    ensures body == BodyOf(args.body)
    ensures body.Keys == KeysOf(args.body)
    ensures forall i :: LastWithKey(args.body, i) ==> body[args.body[i].k] == args.body[i].v
  {
    body := map[];
    for n := 0 to |args.body|
      invariant body == BodyOf(args.body[..n])
    {
      var pair := args.body[n];
      assert args.body[..n + 1][..n] == args.body[..n];
      body := body[pair.k := pair.v];
    }
    assert args.body[..|args.body|] == args.body;
    BodyKeys(args.body);
    forall i | LastWithKey(args.body, i) ensures body[args.body[i].k] == args.body[i].v {
      BodyLastWins(args.body, i);
    }
  }

  /** An empty pair list gives an empty body. */
  lemma BodyOfEmpty()
    ensures BodyOf([]) == map[]
  {
  }

  /** The body has exactly the keys that appear in the pair list. */
  lemma {:induction false} BodyKeys(pairs: seq<KvPair>)
    ensures BodyOf(pairs).Keys == KeysOf(pairs)
    decreases |pairs|
  {
    if pairs != [] {
      var init := pairs[..|pairs| - 1];
      BodyKeys(init);
      assert pairs == init + [pairs[|pairs| - 1]];
      assert KeysOf(pairs) == KeysOf(init) + {pairs[|pairs| - 1].k} by {
        forall key | key in KeysOf(pairs) ensures key in KeysOf(init) + {pairs[|pairs| - 1].k} {
          var i :| 0 <= i < |pairs| && pairs[i].k == key;
          if i < |pairs| - 1 {
            assert init[i] == pairs[i];
          }
        }
        forall key | key in KeysOf(init) ensures key in KeysOf(pairs) {
          var i :| 0 <= i < |init| && init[i].k == key;
          assert pairs[i] == init[i];
        }
      }
    }
  }

  /** Last write wins: a key's value is that of its last pair in list order. */
  lemma {:induction false} BodyLastWins(pairs: seq<KvPair>, i: int)
    requires LastWithKey(pairs, i)
    ensures pairs[i].k in BodyOf(pairs)
    ensures BodyOf(pairs)[pairs[i].k] == pairs[i].v
    decreases |pairs|
  {
    var n := |pairs| - 1;
    if i < n {
      var init := pairs[..n];
      assert init[i] == pairs[i];
      assert LastWithKey(init, i) by {
        forall j | i < j < |init| ensures init[j].k != init[i].k {
          assert init[j] == pairs[j];
        }
      }
      BodyLastWins(init, i);
      assert pairs[n].k != pairs[i].k;
    }
  }

  /**
   * Every key of the body comes from a pair that is the last one with that
   * key, and the body holds that pair's value.
   */
  lemma {:induction false} BodyValueFromLastPair(pairs: seq<KvPair>, key: string)
    requires key in BodyOf(pairs)
    ensures exists i :: LastWithKey(pairs, i) && pairs[i].k == key && BodyOf(pairs)[key] == pairs[i].v
    decreases |pairs|
  {
    var n := |pairs| - 1;
    if pairs[n].k == key {
      assert LastWithKey(pairs, n);
    } else {
      var init := pairs[..n];
      BodyValueFromLastPair(init, key);
      var i :| LastWithKey(init, i) && init[i].k == key && BodyOf(init)[key] == init[i].v;
      assert pairs[i] == init[i];
      assert LastWithKey(pairs, i) by {
        forall j | i < j < |pairs| ensures pairs[j].k != pairs[i].k {
          if j < n {
            assert pairs[j] == init[j];
          }
        }
      }
    }
  }

  /** Two pairs with key `a`: the body keeps only the second value. */
  lemma BodyDuplicateKeyExample()
    ensures BodyOf([KvPair("a", "1"), KvPair("a", "2")]) == map["a" := "2"]
  {
    var pairs := [KvPair("a", "1"), KvPair("a", "2")];
    assert pairs[..1][..0] == [];
  }

  /** `name=widget qty=3` gives a body with both keys. */
  lemma BodyTwoKeysExample()
    ensures BodyOf([KvPair("name", "widget"), KvPair("qty", "3")]) == map["name" := "widget", "qty" := "3"]
  {
    var pairs := [KvPair("name", "widget"), KvPair("qty", "3")];
    assert pairs[..1][..0] == [];
  }

  /**
   * When every body token was accepted by the parser, no key or value of the
   * body contains `=`.
   */
  lemma {:induction false} BodyOfParsedTokens(tokens: seq<string>, pairs: seq<KvPair>)
    requires |tokens| == |pairs|
    requires forall i :: 0 <= i < |tokens| ==> ParseKvPair(tokens[i]) == Ok(pairs[i])
    ensures forall key :: key in BodyOf(pairs) ==> Sep !in key && Sep !in BodyOf(pairs)[key]
  {
    forall key | key in BodyOf(pairs) ensures Sep !in key && Sep !in BodyOf(pairs)[key] {
      BodyValueFromLastPair(pairs, key);
      var i :| LastWithKey(pairs, i) && pairs[i].k == key && BodyOf(pairs)[key] == pairs[i].v;
      assert FromStr(tokens[i]) == Ok(pairs[i]);
    }
  }
}
