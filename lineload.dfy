/**
 * The loop shape shared by `StudentDB::Load` and `AttendanceDB#initialize`:
 * read a file line by line, skip comment and blank lines, split the chopped
 * line, and set one hash entry from it; a later line for the same key
 * overwrites an earlier one, and a line the parse raises on stops the load.
 */
module LineLoad {
  import opened Base
  import opened Text

  /** What one chopped line does to the hash. */
  datatype Effect<V> = Skip | Put(key: string, value: V) | Abort

  /** `line =~ /^\#/`: a `#` at the start of the line or right after a line break. */
  predicate IsComment(line: string): (b: bool)
    ensures |line| > 0 && line[0] == '#' ==> b
    ensures (forall i :: 0 <= i < |line| - 1 ==> line[i] != '\n') ==> (b ==> |line| > 0 && line[0] == '#')
  {
    exists i :: 0 <= i < |line| && line[i] == '#' && (i == 0 || line[i - 1] == '\n')
  }

  /** `line.chop.size == 0`: an empty line, a lone character, or a bare CR LF. */
  predicate IsBlank(line: string): (b: bool)
    ensures b <==> |line| <= 1 || line == "\r\n"
  {
    |Chop(line)| == 0
  }

  /** The effect of one raw line, after the `next if` guard. */
  function LineEffect<V>(line: string, parse: string -> Effect<V>): Effect<V>
  {
    if IsComment(line) || IsBlank(line) then Skip else parse(Chop(line))
  }

  /** The hash after applying `effs` in order, or the index of the first `Abort`. */
  function Apply<V>(effs: seq<Effect<V>>): (r: Result<map<string, V>, nat>)
    ensures r.Failure? ==> r.error < |effs|
  {
    if |effs| == 0 then Success(map[])
    else
      var n := |effs| - 1;
      match Apply(effs[..n])
      case Failure(e) => Failure(e)
      case Success(m) =>
        match effs[n]
        case Skip => Success(m)
        case Put(k, v) => Success(m[k := v])
        case Abort => Failure(n)
  }

  /** The effect of every line, in file order. */
  function Effects<V>(lines: seq<string>, parse: string -> Effect<V>): (r: seq<Effect<V>>)
    ensures |r| == |lines|
    ensures forall i :: 0 <= i < |lines| ==> r[i] == LineEffect(lines[i], parse)
  {
    seq(|lines|, i requires 0 <= i < |lines| => LineEffect(lines[i], parse))
  }

  /** The hash after all of `lines`, or the index of the line the load stops at. */
  function Load<V>(lines: seq<string>, parse: string -> Effect<V>): (r: Result<map<string, V>, nat>)
    ensures r.Failure? ==> r.error < |lines|
  {
    Apply(Effects(lines, parse))
  }

  /** The load as the source runs it: one pass, leaving at the first line that raises. */
  method LoadLines<V>(lines: seq<string>, parse: string -> Effect<V>) returns (r: Result<map<string, V>, nat>)
    ensures r == Load(lines, parse)
  {
    var m: map<string, V> := map[];
    var i := 0;
    while i < |lines|
      invariant 0 <= i <= |lines|
      invariant Load(lines[..i], parse) == Success(m)
    {
      assert lines[..i + 1] == lines[..i] + [lines[i]];
      LoadAppend(lines[..i], lines[i], parse);
      var line := lines[i];
      if !(IsComment(line) || IsBlank(line)) {
        match parse(Chop(line))
        case Skip =>
        case Put(k, v) =>
          m := m[k := v];
        case Abort =>
          LoadStopsAt(lines, parse, i + 1);
          return Failure(i);
      }
      i := i + 1;
    }
    assert lines[..i] == lines;
    r := Success(m);
  }

  /** The effects of a prefix of the file are a prefix of its effects. */
  lemma EffectsPrefix<V>(lines: seq<string>, parse: string -> Effect<V>, n: nat)
    requires n <= |lines|
    ensures Effects(lines[..n], parse) == Effects(lines, parse)[..n]
  {
  }

  /** Once a prefix of the effects stops the fold, the whole fold stops at the same place. */
  lemma {:induction false} ApplyStopsAt<V>(effs: seq<Effect<V>>, n: nat)
    requires n <= |effs| && Apply(effs[..n]).Failure?
    ensures Apply(effs) == Apply(effs[..n])
    decreases |effs| - n
  {
    if n < |effs| {
      assert effs[..n + 1][..n] == effs[..n];
      ApplyStopsAt(effs, n + 1);
    } else {
      assert effs[..n] == effs;
    }
  }

  /** Once a prefix of the file stops the load, the whole file stops it at the same line. */
  lemma LoadStopsAt<V>(lines: seq<string>, parse: string -> Effect<V>, n: nat)
    requires n <= |lines| && Load(lines[..n], parse).Failure?
    ensures Load(lines, parse) == Load(lines[..n], parse)
  {
    EffectsPrefix(lines, parse, n);
    ApplyStopsAt(Effects(lines, parse), n);
  }

  /** Appending a line applies that line's effect to the hash built so far. */
  lemma LoadAppend<V>(lines: seq<string>, line: string, parse: string -> Effect<V>)
    ensures Load(lines + [line], parse) ==
      match Load(lines, parse)
      case Failure(e) => Failure(e)
      case Success(m) =>
        match LineEffect(line, parse)
        case Skip => Success(m)
        case Put(k, v) => Success(m[k := v])
        case Abort => Failure(|lines|)
  {
    var all := lines + [line];
    assert all[..|lines|] == lines;
    EffectsPrefix(all, parse, |lines|);
  }

  /** The effect sets key `k`. */
  predicate SetsKey<V>(e: Effect<V>, k: string)
  {
    e.Put? && e.key == k
  }

  /** Line `i` sets key `k`. */
  predicate PutsKey<V>(line: string, parse: string -> Effect<V>, k: string)
  {
    SetsKey(LineEffect(line, parse), k)
  }

  /** The fold holds exactly the keys some effect sets, each with the value of the last such effect. */
  lemma {:induction false} ApplyLastWins<V>(effs: seq<Effect<V>>, k: string)
    requires Apply(effs).Success?
    ensures k in Apply(effs).value <==> exists i :: 0 <= i < |effs| && SetsKey(effs[i], k)
    ensures k in Apply(effs).value ==>
      exists i :: 0 <= i < |effs| && SetsKey(effs[i], k) && Apply(effs).value[k] == effs[i].value
        && forall j :: i < j < |effs| ==> !SetsKey(effs[j], k)
  {
    if |effs| > 0 {
      var n := |effs| - 1;
      var init := effs[..n];
      assert forall j :: 0 <= j < n ==> init[j] == effs[j];
      ApplyLastWins(init, k);
    }
  }

  /**
   * A load that succeeds holds exactly the keys some line sets, and each
   * key's value is the one set by the last line for that key.
   */
  lemma LoadLastWins<V>(lines: seq<string>, parse: string -> Effect<V>, k: string)
    requires Load(lines, parse).Success?
    ensures k in Load(lines, parse).value <==> exists i :: 0 <= i < |lines| && PutsKey(lines[i], parse, k)
    ensures k in Load(lines, parse).value ==>
      exists i :: 0 <= i < |lines| && PutsKey(lines[i], parse, k)
        && Load(lines, parse).value[k] == LineEffect(lines[i], parse).value
        && forall j :: i < j < |lines| ==> !PutsKey(lines[j], parse, k)
  {
    var effs := Effects(lines, parse);
    ApplyLastWins(effs, k);
    assert forall i :: 0 <= i < |lines| ==> effs[i] == LineEffect(lines[i], parse);
  }

  /** The fold stops exactly when some effect is `Abort`, and at the first one. */
  lemma {:induction false} ApplyStopsAtFirstAbort<V>(effs: seq<Effect<V>>)
    ensures Apply(effs).Failure? <==> exists i :: 0 <= i < |effs| && effs[i].Abort?
    ensures Apply(effs).Failure? ==>
      var e := Apply(effs).error;
      effs[e].Abort? && forall j :: 0 <= j < e ==> !effs[j].Abort?
  {
    if |effs| > 0 {
      var n := |effs| - 1;
      var init := effs[..n];
      assert forall j :: 0 <= j < n ==> init[j] == effs[j];
      ApplyStopsAtFirstAbort(init);
    }
  }

  /** A load stops exactly when some line raises, and it stops at the first such line. */
  lemma LoadStopsAtFirstAbort<V>(lines: seq<string>, parse: string -> Effect<V>)
    ensures Load(lines, parse).Failure? <==> exists i :: 0 <= i < |lines| && LineEffect(lines[i], parse).Abort?
    ensures Load(lines, parse).Failure? ==>
      var e := Load(lines, parse).error;
      LineEffect(lines[e], parse).Abort? && forall j :: 0 <= j < e ==> !LineEffect(lines[j], parse).Abort?
  {
    var effs := Effects(lines, parse);
    ApplyStopsAtFirstAbort(effs);
    assert forall i :: 0 <= i < |lines| ==> effs[i] == LineEffect(lines[i], parse);
  }

  /** Comment and blank lines change nothing. */
  lemma SkippedLineIsNoOp<V>(lines: seq<string>, line: string, parse: string -> Effect<V>)
    requires IsComment(line) || IsBlank(line)
    ensures Load(lines + [line], parse) == Load(lines, parse)
  {
    LoadAppend(lines, line, parse);
  }
}
