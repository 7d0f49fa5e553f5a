/** The routing table of the file-path extraction task: the configured
    buckets, the regex-to-bucket dictionary built from `file-buckets`, and
    the choice of a destination bucket for a file name. */
module RegexBuckets {
  import opened Results

  /** The regular-expression engine is left abstract: `search(p, s)` stands
      for `re.search(p, s)` and `matchStart(p, s)` for `re.compile(p).match(s)`. */
  datatype Regex = Regex(search: (string, string) -> bool, matchStart: (string, string) -> bool)

  /** The task's failures. `ExtractFilePathsError` names the place in the
      event that was being read and the key found missing. `UnboundConfig`
      is what a missing `config` key leads to: the error handler formats a
      message from a variable that was never assigned. */
  datatype TaskError =
    | UnboundConfig
    | ExtractFilePathsError(level: string, missingKey: string)

  const ConfigLevel := "event['config']"

  /** One entry of `config['file-buckets']`; its sample file name is unused. */
  datatype FileBucketRule = FileBucketRule(regex: Option<string>, bucket: Option<string>)

  datatype Meta = Meta(excludeFileTypes: Option<seq<string>>)
  datatype Collection = Collection(meta: Option<Meta>)

  /** The keys of `event['config']` the task reads; `None` is a missing key. */
  datatype Config = Config(
    collection: Option<Collection>,
    protectedBucket: Option<string>,
    internalBucket: Option<string>,
    privateBucket: Option<string>,
    publicBucket: Option<string>,
    fileBuckets: Option<seq<FileBucketRule>>)

  /** `config['collection']['meta']['excludeFileTypes']`, each level
      defaulting to empty when absent. */
  function ExcludeFileTypes(c: Config): (types: seq<string>)
    ensures (|| c.collection.None?
             || c.collection.value.meta.None?
             || c.collection.value.meta.value.excludeFileTypes.None?) ==> types == []
    ensures (&& c.collection.Some?
             && c.collection.value.meta.Some?
             && c.collection.value.meta.value.excludeFileTypes.Some?)
            ==> types == c.collection.value.meta.value.excludeFileTypes.value
  {
    match c.collection
    case None => []
    case Some(coll) =>
      match coll.meta
      case None => []
      case Some(meta) =>
        match meta.excludeFileTypes
        case None => []
        case Some(types) => types
  }

  // ---------------------------------------------------------------------
  // Bucket aliases

  /** The bucket a configuration assigns to an alias, if the alias is one of
      the four known ones and its bucket key is present. */
  function ConfiguredBucket(c: Config, alias: string): Option<string> {
    if alias == "protected" then c.protectedBucket
    else if alias == "internal" then c.internalBucket
    else if alias == "private" then c.privateBucket
    else if alias == "public" then c.publicBucket
    else None
  }

  predicate AllBucketsConfigured(c: Config) {
    c.protectedBucket.Some? && c.internalBucket.Some? && c.privateBucket.Some? && c.publicBucket.Some?
  }

  /** The `buckets` dictionary: alias to bucket name, read in the order
      protected, internal, private, public. */
  function AliasBuckets(c: Config): (r: Result<map<string, string>, TaskError>)
    ensures r.Success? <==> AllBucketsConfigured(c)
    ensures r.Success? ==> forall alias :: alias in r.value <==> ConfiguredBucket(c, alias).Some?
    ensures r.Success? ==> forall alias :: alias in r.value ==> Some(r.value[alias]) == ConfiguredBucket(c, alias)
    ensures r.Failure? ==> r.error.ExtractFilePathsError? && r.error.level == ConfigLevel
  {
    if c.protectedBucket.None? then Failure(ExtractFilePathsError(ConfigLevel, "protected-bucket"))
    else if c.internalBucket.None? then Failure(ExtractFilePathsError(ConfigLevel, "internal-bucket"))
    else if c.privateBucket.None? then Failure(ExtractFilePathsError(ConfigLevel, "private-bucket"))
    else if c.publicBucket.None? then Failure(ExtractFilePathsError(ConfigLevel, "public-bucket"))
    else Success(map[
      "protected" := c.protectedBucket.value,
      "internal" := c.internalBucket.value,
      "private" := c.privateBucket.value,
      "public" := c.publicBucket.value])
  }

  // ---------------------------------------------------------------------
  // The regex-to-bucket dictionary

  /** One entry of an insertion-ordered dictionary from regex to bucket. */
  datatype Binding = Binding(regex: string, bucket: string)

  /** The dictionary's keys, in iteration order. */
  function Regexes(d: seq<Binding>): (keys: seq<string>)
    ensures |keys| == |d|
    ensures forall i :: 0 <= i < |d| ==> keys[i] == d[i].regex
  {
    if |d| == 0 then [] else [d[0].regex] + Regexes(d[1..])
  }

  /** Keys of a dictionary are distinct. */
  predicate DistinctRegexes(d: seq<Binding>) {
    forall i, j :: 0 <= i < j < |d| ==> d[i].regex != d[j].regex
  }

  /** `d[k]`, or `None` when `k` is not a key. */
  function Lookup(d: seq<Binding>, k: string): Option<string> {
    if |d| == 0 then None
    else if d[0].regex == k then Some(d[0].bucket)
    else Lookup(d[1..], k)
  }

  /** `d[k] = v`: an existing key keeps its position and takes the new value;
      a new key goes last. */
  function Put(d: seq<Binding>, k: string, v: string): (r: seq<Binding>)
    ensures Lookup(r, k) == Some(v)
    ensures |d| <= |r| <= |d| + 1
    ensures forall i :: 0 <= i < |d| ==> r[i].regex == d[i].regex
    ensures |r| == |d| + 1 ==> r[|d|] == Binding(k, v)
  {
    if |d| == 0 then [Binding(k, v)]
    else if d[0].regex == k then [Binding(k, v)] + d[1..]
    else [d[0]] + Put(d[1..], k, v)
  }

  /** Assignment changes the key order only by appending a new key. */
  lemma {:induction false} PutKeys(d: seq<Binding>, k: string, v: string)
    ensures Regexes(Put(d, k, v)) == if k in Regexes(d) then Regexes(d) else Regexes(d) + [k]
  {
    if |d| > 0 {
      assert Regexes(d) == [d[0].regex] + Regexes(d[1..]);
      if d[0].regex == k {
        assert Regexes(Put(d, k, v)) == [k] + Regexes(d[1..]);
      } else {
        PutKeys(d[1..], k, v);
        var p := Put(d[1..], k, v);
        assert Put(d, k, v) == [d[0]] + p;
        assert Regexes([d[0]] + p) == [d[0].regex] + Regexes(p);
      }
    }
  }

  /** Assignment leaves the value of every other key alone. */
  lemma {:induction false} PutOthers(d: seq<Binding>, k: string, v: string)
    ensures forall k' :: k' != k ==> Lookup(Put(d, k, v), k') == Lookup(d, k')
  {
    if |d| > 0 {
      if d[0].regex == k {
        assert Put(d, k, v)[1..] == d[1..];
      } else {
        PutOthers(d[1..], k, v);
        assert Put(d, k, v)[1..] == Put(d[1..], k, v);
      }
    }
  }

  /** Assignment keeps the keys distinct. */
  lemma PutDistinct(d: seq<Binding>, k: string, v: string)
    requires DistinctRegexes(d)
    ensures DistinctRegexes(Put(d, k, v))
  {
    var r := Put(d, k, v);
    PutKeys(d, k, v);
    forall i, j | 0 <= i < j < |r|
      ensures r[i].regex != r[j].regex
    {
      if j == |d| {
        assert r[j].regex == k && k !in Regexes(d);
        assert r[i].regex == Regexes(d)[i];
      }
    }
  }

  /** Assignment sets the key's value, leaves every other key's value alone,
      keeps the keys distinct, and changes the key order only by appending a
      new key. */
  lemma PutSpec(d: seq<Binding>, k: string, v: string)
    requires DistinctRegexes(d)
    ensures DistinctRegexes(Put(d, k, v))
    ensures Lookup(Put(d, k, v), k) == Some(v)
    ensures forall k' :: k' != k ==> Lookup(Put(d, k, v), k') == Lookup(d, k')
    ensures Regexes(Put(d, k, v)) == if k in Regexes(d) then Regexes(d) else Regexes(d) + [k]
  {
    PutKeys(d, k, v);
    PutOthers(d, k, v);
    PutDistinct(d, k, v);
  }

  // ---------------------------------------------------------------------
  // Building the dictionary from `file-buckets`

  /** A rule names a regex and a known alias. */
  predicate RuleResolvable(c: Config, rule: FileBucketRule) {
    rule.regex.Some? && rule.bucket.Some? && ConfiguredBucket(c, rule.bucket.value).Some?
  }

  /** Everything `get_regex_buckets` reads is present. */
  predicate ConfigWellFormed(c: Config) {
    && AllBucketsConfigured(c)
    && c.fileBuckets.Some?
    && AllResolvable(c, c.fileBuckets.value)
  }

  /** The loop over `file-buckets`, entry by entry, into `acc`. Python
      evaluates the right-hand side of `regex_buckets[regx["regex"]] = ...`
      first, so the entry's `bucket` key and its alias are looked up before
      its `regex` key. */
  function AddRules(aliases: map<string, string>, rules: seq<FileBucketRule>, acc: seq<Binding>): (r: Result<seq<Binding>, TaskError>)
    ensures r.Failure? ==> r.error.ExtractFilePathsError? && r.error.level == ConfigLevel
    ensures r.Success? ==> |acc| <= |r.value| && forall i :: 0 <= i < |acc| ==> r.value[i].regex == acc[i].regex
    decreases |rules|
  {
    if |rules| == 0 then Success(acc)
    else
      var rule := rules[0];
      if rule.bucket.None? then Failure(ExtractFilePathsError(ConfigLevel, "bucket"))
      else if rule.bucket.value !in aliases then Failure(ExtractFilePathsError(ConfigLevel, rule.bucket.value))
      else if rule.regex.None? then Failure(ExtractFilePathsError(ConfigLevel, "regex"))
      else AddRules(aliases, rules[1..], Put(acc, rule.regex.value, aliases[rule.bucket.value]))
  }

  /** `get_regex_buckets`. */
  function GetRegexBuckets(c: Config): (r: Result<seq<Binding>, TaskError>)
    ensures r.Failure? ==> r.error.ExtractFilePathsError? && r.error.level == ConfigLevel
  {
    match AliasBuckets(c)
    case Failure(e) => Failure(e)
    case Success(aliases) =>
      if c.fileBuckets.None? then Failure(ExtractFilePathsError(ConfigLevel, "file-buckets"))
      else AddRules(aliases, c.fileBuckets.value, [])
  }

  // Reference definitions for what the dictionary holds.

  /** The regexes of a list of resolvable rules, in rule order. */
  function RuleRegexes(c: Config, rules: seq<FileBucketRule>): (s: seq<string>)
    requires AllResolvable(c, rules)
    ensures |s| == |rules|
    ensures forall i :: 0 <= i < |rules| ==> rules[i].regex == Some(s[i])
  {
    if |rules| == 0 then []
    else
      assert RuleResolvable(c, rules[0]);
      [rules[0].regex.value] + RuleRegexes(c, rules[1..])
  }

  /** `s` without the elements of `excluded`. */
  function Without(s: seq<string>, excluded: seq<string>): (r: seq<string>)
    ensures |r| <= |s|
    ensures forall x :: x in r <==> x in s && x !in excluded
  {
    if |s| == 0 then []
    else if s[0] in excluded then Without(s[1..], excluded)
    else [s[0]] + Without(s[1..], excluded)
  }

  /** Each element of `s` once, at the place of its first occurrence. */
  function FirstOccurrences(s: seq<string>): (r: seq<string>)
    ensures forall x :: x in r <==> x in s
    decreases |s|
  {
    if |s| == 0 then [] else [s[0]] + FirstOccurrences(Without(s[1..], [s[0]]))
  }

  /** The bucket of the last rule whose regex is `k`: later rules override. */
  function LastRuleBucket(c: Config, rules: seq<FileBucketRule>, k: string): (b: Option<string>)
    requires AllResolvable(c, rules)
    ensures b.None? <==> forall i :: 0 <= i < |rules| ==> rules[i].regex != Some(k)
  {
    if |rules| == 0 then None
    else
      assert RuleResolvable(c, rules[0]);
      var later := LastRuleBucket(c, rules[1..], k);
      if later.Some? then later
      else if rules[0].regex.value == k then ConfiguredBucket(c, rules[0].bucket.value)
      else None
  }

  lemma {:induction false} WithoutTwice(s: seq<string>, a: seq<string>, b: seq<string>)
    ensures Without(Without(s, a), b) == Without(s, a + b)
    decreases |s|
  {
    if |s| > 0 {
      WithoutTwice(s[1..], a, b);
    }
  }

  lemma {:induction false} WithoutNothing(s: seq<string>)
    ensures Without(s, []) == s
    decreases |s|
  {
    if |s| > 0 {
      WithoutNothing(s[1..]);
    }
  }

  /** The loop over the rules fails exactly when some rule does not resolve,
      and then with an error about `event['config']`. */
  lemma {:induction false} AddRulesFailsIff(c: Config, aliases: map<string, string>, rules: seq<FileBucketRule>, acc: seq<Binding>)
    requires forall alias :: alias in aliases <==> ConfiguredBucket(c, alias).Some?
    ensures AddRules(aliases, rules, acc).Failure?
        <==> exists i :: 0 <= i < |rules| && !RuleResolvable(c, rules[i])
    ensures AddRules(aliases, rules, acc).Failure? ==>
      AddRules(aliases, rules, acc).error.ExtractFilePathsError? && AddRules(aliases, rules, acc).error.level == ConfigLevel
    decreases |rules|
  {
    if |rules| > 0 {
      var rule := rules[0];
      if rule.bucket.Some? && rule.bucket.value in aliases && rule.regex.Some? {
        AddRulesFailsIff(c, aliases, rules[1..], Put(acc, rule.regex.value, aliases[rule.bucket.value]));
        if exists i :: 0 <= i < |rules| && !RuleResolvable(c, rules[i]) {
          var i :| 0 <= i < |rules| && !RuleResolvable(c, rules[i]);
          assert rules[1..][i - 1] == rules[i];
        }
      } else {
        assert !RuleResolvable(c, rules[0]);
      }
    }
  }

  /** Adding regex `k` to a dictionary whose keys are `seen` extends the
      first-occurrence order as the reference definition does. */
  lemma {:induction false} FirstOccurrencesStep(k: string, rest: seq<string>, seen: seq<string>)
    ensures k in seen ==>
      FirstOccurrences(Without([k] + rest, seen)) == FirstOccurrences(Without(rest, seen))
    ensures k !in seen ==>
      FirstOccurrences(Without([k] + rest, seen)) == [k] + FirstOccurrences(Without(rest, seen + [k]))
  {
    assert ([k] + rest)[1..] == rest;
    if k !in seen {
      calc {
        FirstOccurrences(Without([k] + rest, seen));
        FirstOccurrences([k] + Without(rest, seen));
        [k] + FirstOccurrences(Without(Without(rest, seen), [k]));
        { WithoutTwice(rest, seen, [k]); }
        [k] + FirstOccurrences(Without(rest, seen + [k]));
      }
    }
  }

  /** Whether the rules all resolve; the `file-buckets` condition of a
      well-formed configuration, for any suffix of the rules. */
  predicate AllResolvable(c: Config, rules: seq<FileBucketRule>) {
    forall i :: 0 <= i < |rules| ==> RuleResolvable(c, rules[i])
  }

  lemma TailResolvable(c: Config, rules: seq<FileBucketRule>)
    requires |rules| > 0 && AllResolvable(c, rules)
    ensures RuleResolvable(c, rules[0]) && AllResolvable(c, rules[1..])
  {
    forall i | 0 <= i < |rules[1..]| ensures RuleResolvable(c, rules[1..][i]) {
      assert rules[1..][i] == rules[i + 1];
    }
  }

  /** One rule's step of the key order: the keys after assigning `k` to a
      dictionary with keys `seen`, followed by the first occurrences of the
      later regexes not yet among them, are `seen` followed by the first
      occurrences of all the regexes not among `seen`. */
  lemma {:induction false} OrderStep(k: string, later: seq<string>, seen: seq<string>, seen': seq<string>)
    requires seen' == if k in seen then seen else seen + [k]
    ensures seen' + FirstOccurrences(Without(later, seen'))
         == seen + FirstOccurrences(Without([k] + later, seen))
  {
    var all := FirstOccurrences(Without([k] + later, seen));
    if k in seen {
      assert all == FirstOccurrences(Without(later, seen)) by {
        FirstOccurrencesStep(k, later, seen);
      }
    } else {
      var rest := FirstOccurrences(Without(later, seen + [k]));
      assert all == [k] + rest by {
        FirstOccurrencesStep(k, later, seen);
      }
      assert seen' + rest == seen + all;
    }
  }

  /** When every rule resolves the loop succeeds, and from a distinct
      dictionary it keeps the regexes distinct. */
  lemma {:induction false} AddRulesDistinct(c: Config, aliases: map<string, string>, rules: seq<FileBucketRule>, acc: seq<Binding>)
    requires forall alias :: alias in aliases <==> ConfiguredBucket(c, alias).Some?
    requires AllResolvable(c, rules)
    requires DistinctRegexes(acc)
    ensures AddRules(aliases, rules, acc).Success?
    ensures DistinctRegexes(AddRules(aliases, rules, acc).value)
    decreases |rules|
  {
    if |rules| > 0 {
      TailResolvable(c, rules);
      var rule := rules[0];
      var k := rule.regex.value;
      var v := aliases[rule.bucket.value];
      PutSpec(acc, k, v);
      AddRulesDistinct(c, aliases, rules[1..], Put(acc, k, v));
    }
  }

  /** When every rule resolves, the loop appends the new regexes to the
      dictionary in the order of their first occurrence in the rules. */
  lemma {:induction false} AddRulesOrder(c: Config, aliases: map<string, string>, rules: seq<FileBucketRule>, acc: seq<Binding>)
    requires forall alias :: alias in aliases <==> ConfiguredBucket(c, alias).Some?
    requires AllResolvable(c, rules)
    requires DistinctRegexes(acc)
    ensures AddRules(aliases, rules, acc).Success?
    ensures Regexes(AddRules(aliases, rules, acc).value)
         == Regexes(acc) + FirstOccurrences(Without(RuleRegexes(c, rules), Regexes(acc)))
    decreases |rules|
  {
    AddRulesDistinct(c, aliases, rules, acc);
    if |rules| > 0 {
      TailResolvable(c, rules);
      var rule := rules[0];
      var k := rule.regex.value;
      var v := aliases[rule.bucket.value];
      var acc' := Put(acc, k, v);
      PutSpec(acc, k, v);
      AddRulesOrder(c, aliases, rules[1..], acc');
      assert RuleRegexes(c, rules) == [k] + RuleRegexes(c, rules[1..]);
      OrderStep(k, RuleRegexes(c, rules[1..]), Regexes(acc), Regexes(acc'));
    } else {
      assert Without([], Regexes(acc)) == [];
    }
  }

  /** When every rule resolves, each regex of the result maps to the bucket
      of the last rule naming it, and every other key keeps its old value. */
  lemma {:induction false} AddRulesLookup(c: Config, aliases: map<string, string>, rules: seq<FileBucketRule>, acc: seq<Binding>)
    requires forall alias :: alias in aliases <==> ConfiguredBucket(c, alias).Some?
    requires forall alias :: alias in aliases ==> Some(aliases[alias]) == ConfiguredBucket(c, alias)
    requires AllResolvable(c, rules)
    requires DistinctRegexes(acc)
    ensures AddRules(aliases, rules, acc).Success?
    ensures forall k :: Lookup(AddRules(aliases, rules, acc).value, k)
                     == if LastRuleBucket(c, rules, k).Some? then LastRuleBucket(c, rules, k) else Lookup(acc, k)
    decreases |rules|
  {
    AddRulesDistinct(c, aliases, rules, acc);
    if |rules| > 0 {
      TailResolvable(c, rules);
      var rule := rules[0];
      var k := rule.regex.value;
      var v := aliases[rule.bucket.value];
      PutSpec(acc, k, v);
      AddRulesLookup(c, aliases, rules[1..], Put(acc, k, v));
    }
  }

  /** The three facts together, for a loop whose rules all resolve. */
  lemma AddRulesSpec(c: Config, aliases: map<string, string>, rules: seq<FileBucketRule>, acc: seq<Binding>)
    requires forall alias :: alias in aliases <==> ConfiguredBucket(c, alias).Some?
    requires forall alias :: alias in aliases ==> Some(aliases[alias]) == ConfiguredBucket(c, alias)
    requires AllResolvable(c, rules)
    requires DistinctRegexes(acc)
    ensures AddRules(aliases, rules, acc).Success?
    ensures
      var d := AddRules(aliases, rules, acc).value;
      && DistinctRegexes(d)
      && Regexes(d) == Regexes(acc) + FirstOccurrences(Without(RuleRegexes(c, rules), Regexes(acc)))
      && forall k :: Lookup(d, k) == if LastRuleBucket(c, rules, k).Some? then LastRuleBucket(c, rules, k) else Lookup(acc, k)
  {
    AddRulesDistinct(c, aliases, rules, acc);
    AddRulesOrder(c, aliases, rules, acc);
    AddRulesLookup(c, aliases, rules, acc);
  }

  /** `get_regex_buckets` succeeds exactly when all four bucket keys and
      `file-buckets` are present and every entry names a regex and a known
      alias; otherwise it fails with an error about `event['config']`. On
      success the dictionary has one key per distinct regex, in order of
      first occurrence, and each regex maps to the configured bucket of the
      alias of its last entry. */
  lemma GetRegexBucketsSpec(c: Config)
    ensures GetRegexBuckets(c).Success? <==> ConfigWellFormed(c)
    ensures GetRegexBuckets(c).Failure? ==>
      GetRegexBuckets(c).error.ExtractFilePathsError? && GetRegexBuckets(c).error.level == ConfigLevel
    ensures ConfigWellFormed(c) ==>
      var d := GetRegexBuckets(c).value;
      && DistinctRegexes(d)
      && Regexes(d) == FirstOccurrences(RuleRegexes(c, c.fileBuckets.value))
      && forall k :: Lookup(d, k) == LastRuleBucket(c, c.fileBuckets.value, k)
  {
    if AllBucketsConfigured(c) && c.fileBuckets.Some? {
      var aliases := AliasBuckets(c).value;
      AddRulesFailsIff(c, aliases, c.fileBuckets.value, []);
      if ConfigWellFormed(c) {
        AddRulesSpec(c, aliases, c.fileBuckets.value, []);
        WithoutNothing(RuleRegexes(c, c.fileBuckets.value));
        assert Regexes([]) == [];
      }
    }
  }

  // ---------------------------------------------------------------------
  // Choosing the destination bucket

  /** The loop over the dictionary: every key whose regex matches the name
      at its start overwrites the destination found so far. */
  function ScanDest(d: seq<Binding>, name: string, rx: Regex, current: Option<string>): (r: Option<string>)
    ensures (forall i :: 0 <= i < |d| ==> !rx.matchStart(d[i].regex, name)) ==> r == current
    ensures r != current ==> exists i :: 0 <= i < |d| && rx.matchStart(d[i].regex, name) && r == Some(d[i].bucket)
    ensures r == if LastMatch(d, name, rx).Some? then LastMatch(d, name, rx) else current
    decreases |d|
  {
    if |d| == 0 then current
    else ScanDest(d[1..], name, rx, if rx.matchStart(d[0].regex, name) then Some(d[0].bucket) else current)
  }

  /** The destination bucket of a file name; `None` when nothing matches. */
  function DestBucket(d: seq<Binding>, name: string, rx: Regex): (b: Option<string>)
    ensures b == LastMatch(d, name, rx)
  {
    ScanDest(d, name, rx, None)
  }

  /** Reference definition: the bucket of the last binding, in iteration
      order, whose regex matches. */
  function LastMatch(d: seq<Binding>, name: string, rx: Regex): (b: Option<string>)
    ensures b.None? <==> forall i :: 0 <= i < |d| ==> !rx.matchStart(d[i].regex, name)
    ensures b.Some? ==> exists i :: 0 <= i < |d| && rx.matchStart(d[i].regex, name) && d[i].bucket == b.value
                          && forall j :: i < j < |d| ==> !rx.matchStart(d[j].regex, name)
  {
    if |d| == 0 then None
    else
      var later := LastMatch(d[1..], name, rx);
      if later.Some? then
        var tail := d[1..];
        var i :| 0 <= i < |tail| && rx.matchStart(tail[i].regex, name) && tail[i].bucket == later.value
                 && forall j :: i < j < |tail| ==> !rx.matchStart(tail[j].regex, name);
        assert d[i + 1] == tail[i];
        later
      else if rx.matchStart(d[0].regex, name) then Some(d[0].bucket)
      else None
  }

  /** The destination is the bucket of the last matching regex in
      dictionary order, and `None` when no regex matches. */
  lemma DestBucketIsLastMatch(d: seq<Binding>, name: string, rx: Regex)
    ensures DestBucket(d, name, rx) == LastMatch(d, name, rx)
  {
  }

  /** A regex listed twice keeps the position of its first entry and takes
      the bucket of its second, so when a name matches every regex the
      destination is the bucket of the regex inserted last, not of the last
      rule. */
  lemma RepeatedRegexKeepsFirstPosition()
    ensures
      var rules := [FileBucketRule(Some("a"), Some("protected")),
                    FileBucketRule(Some("b"), Some("public")),
                    FileBucketRule(Some("a"), Some("private"))];
      var c := Config(None, Some("P"), Some("I"), Some("R"), Some("U"), Some(rules));
      var matchAll := Regex((p: string, s: string) => false, (p: string, s: string) => true);
      && GetRegexBuckets(c) == Success([Binding("a", "R"), Binding("b", "U")])
      && DestBucket(GetRegexBuckets(c).value, "x", matchAll) == Some("U")
  {
    var rules := [FileBucketRule(Some("a"), Some("protected")),
                  FileBucketRule(Some("b"), Some("public")),
                  FileBucketRule(Some("a"), Some("private"))];
    var c := Config(None, Some("P"), Some("I"), Some("R"), Some("U"), Some(rules));
    var aliases := AliasBuckets(c).value;
    assert Put([], "a", "P") == [Binding("a", "P")];
    assert Put([Binding("a", "P")], "b", "U") == [Binding("a", "P"), Binding("b", "U")];
    assert Put([Binding("a", "P"), Binding("b", "U")], "a", "R") == [Binding("a", "R"), Binding("b", "U")];
    assert rules[1..][1..] == [rules[2]];
  }
}
