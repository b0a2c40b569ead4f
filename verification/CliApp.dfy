/** The parse functions of the flat application as they run: they pop and push the argument vector and
    append to the results, the parse order and the missing list. */
module CliApp {
  import opened CliParse

  class App {
    const app: Config
    var args: seq<string>
    var results: seq<seq<string>>
    var order: seq<nat>
    var missing: seq<(Classifier, string)>
    var positionalOnly: bool

    function View(): State
      reads this
    {
      State(args, results, order, missing, positionalOnly)
    }

    predicate Valid()
      reads this
    {
      |results| == |app.options|
    }

    constructor (app: Config)
      ensures this.app == app && Valid()
      ensures View() == State([], seq(|app.options|, _ => []), [], [], false)
    {
      this.app := app;
      args, order, missing, positionalOnly := [], [], [], false;
      results := seq(|app.options|, _ => []);
    }

    method PopBack() returns (s: string)
      requires args != []
      modifies this`args
      ensures s == Top(old(args)) && args == Pop(old(args))
    {
      s := args[|args| - 1];
      args := args[..|args| - 1];
    }

    /** Adds a string to an option's results, and says how many results it became. */
    method Add(i: nat, s: string) returns (count: nat)
      requires Valid() && i < |app.options|
      modifies this`results
      ensures Valid() && View() == AddResult(app, old(View()), i, s)
      ensures count == |Pieces(app.options[i], s)|
    {
      var pieces := Pieces(app.options[i], s);
      results := results[i := results[i] + pieces];
      count := |pieces|;
    }

    method Separate(i: nat)
      requires Valid() && i < |app.options|
      modifies this`results
      ensures Valid() && View() == Separated(app, old(View()), i)
    {
      if app.options[i].injectSeparator {
        var rs := results[i];
        if rs != [] && rs[|rs| - 1] != "" {
          var _ := Add(i, "");
        }
      }
    }

    method MoveMissing(kind: Classifier, s: string)
      modifies this`missing
      ensures View() == MoveToMissing(old(View()), kind, s)
    {
      missing := missing + [(kind, s)];
    }

    /** The value given in the argument itself; rest becomes empty when it is used up. */
    method TakeFirst(i: nat, name: string, value: string, rest: string) returns (error: Option<Error>, collected: nat)
      requires Valid() && i < |app.options|
      modifies this`results, this`order
      ensures Valid()
      ensures error.Some? <==> FirstValue(app, old(View()), i, name, value, rest).Stopped?
      ensures error.Some? ==> FirstValue(app, old(View()), i, name, value, rest) == Stopped(error.value)
      ensures error.None? ==> FirstValue(app, old(View()), i, name, value, rest) == Going(Eating(View(), collected))
    {
      hide FlagValue, Pieces, MaxNum;
      error, collected := None, 0;
      if MaxNum(app.options[i]) == 0 {
        var res := FlagValue(app.options[i], name, value);
        if res.Fails? {
          return Some(res.error), 0;
        }
        var _ := Add(i, res.text);
        order := order + [i];
      } else if value != "" {
        collected := Add(i, value);
        order := order + [i];
      } else if rest != "" {
        collected := Add(i, rest);
        order := order + [i];
      }
    }

    method GatherMinimum(i: nat, start: nat) returns (collected: nat)
      requires Valid() && i < |app.options|
      modifies this`args, this`results, this`order
      ensures Valid() && Eating(View(), collected) == Gather(app, Eating(old(View()), start), i)
    {
      hide Pieces, MinNum, Gather;
      collected := start;
      while MinNum(app.options[i]) > collected && args != []
        invariant Valid() && missing == old(missing) && positionalOnly == old(positionalOnly)
        invariant Gather(app, Eating(View(), collected), i) == Gather(app, Eating(old(View()), start), i)
        decreases |args|
      {
        GatherStep(app, Eating(View(), collected), i);
        var current := PopBack();
        var count := Add(i, current);
        order := order + [i];
        collected := collected + count;
      }
      GatherStep(app, Eating(View(), collected), i);
    }

    method EatOptional(i: nat, start: nat) returns (collected: nat)
      requires Valid() && i < |app.options|
      modifies this`args, this`results, this`order
      ensures Valid()
      ensures Eating(View(), collected) ==
        Eat(app, Eating(old(View()), start), i, CountRemaining(old(results), app.options))
    {
      hide Pieces, MaxNum, Recognize, CountRemaining, Eat;
      var o := app.options[i];
      var remaining := CountRemaining(results, app.options);
      collected := start;
      while (collected < MaxNum(o) || o.allowExtra) && args != [] && Recognize(app, Top(args)) == Nothing
        invariant Valid() && missing == old(missing) && positionalOnly == old(positionalOnly)
        invariant Eat(app, Eating(View(), collected), i, remaining) == Eat(app, Eating(old(View()), start), i, remaining)
        decreases |args|
      {
        EatStep(app, Eating(View(), collected), i, remaining);
        if remaining >= |args| {
          break;
        }
        if app.validateOptional && !o.accepts(Top(args)) {
          break;
        }
        var current := PopBack();
        var count := Add(i, current);
        order := order + [i];
        collected := collected + count;
      }
      EatStep(app, Eating(View(), collected), i, remaining);
    }

    method TakeOptional(i: nat, name: string, start: nat) returns (error: Option<Error>, collected: nat)
      requires Valid() && i < |app.options|
      modifies this`args, this`results, this`order
      ensures Valid()
      ensures error.Some? ==> Optional(app, Eating(old(View()), start), i, name) == Stopped(error.value)
      ensures error.None? ==> Optional(app, Eating(old(View()), start), i, name) == Going(Eating(View(), collected))
    {
      hide Pieces, MaxNum, MinNum, Recognize, CountRemaining, Eat, FlagValue;
      var o := app.options[i];
      error, collected := None, start;
      if MaxNum(o) > collected || o.allowExtra {
        collected := EatOptional(i, collected);
        if args != [] && Recognize(app, Top(args)) == PositionalMark {
          var _ := PopBack();
        }
        if MinNum(o) == 0 && MaxNum(o) > 0 && collected == 0 {
          var res := FlagValue(o, name, "");
          if res.Fails? {
            return Some(res.error), 0;
          }
          var _ := Add(i, res.text);
          order := order + [i];
        }
      }
    }

    /** What _parse_arg does to the option it found. */
    method CollectInto(i: nat, name: string, value: string, rest: string) returns (error: Option<Error>)
      requires Valid() && i < |app.options|
      modifies this`args, this`results, this`order
      ensures Valid()
      ensures error.Some? ==> Collect(app, old(View()), i, name, value, rest) == Thrown(error.value)
      ensures error.None? ==> Collect(app, old(View()), i, name, value, rest) == Ok(View())
    {
      hide FirstValue, Gather, Optional, Separated, MinNum, AddResult;
      var o := app.options[i];
      Separate(i);
      var collected;
      error, collected := TakeFirst(i, name, value, rest);
      if error.Some? {
        return;
      }
      collected := GatherMinimum(i, collected);
      if MinNum(o) > collected {
        return Some(TypedAtLeast(i));
      }
      error, collected := TakeOptional(i, name, collected);
      if error.Some? {
        return;
      }
      MinNeedsSize(o);
      if MinNum(o) > 0 && collected % o.sizeMax != 0 {
        if o.sizeMax != o.sizeMin {
          var _ := Add(i, "");
        } else {
          return Some(PartialType(i));
        }
      }
    }

    /** _parse_arg; error is the exception that it throws. */
    method ParseOption(kind: Classifier) returns (error: Option<Error>)
      requires Valid() && args != [] && Recognize(app, Top(args)) == kind && IsOption(kind)
      modifies this`args, this`results, this`order, this`missing
      ensures Valid()
      ensures error.Some? ==> ParseArg(app, old(View()), kind) == Thrown(error.value)
      ensures error.None? ==> ParseArg(app, old(View()), kind) == Ok(View())
    {
      hide Collect, FindOption, MaxNum;
      var current := Top(args);
      var parts := SplitArg(current, kind);
      hide SplitArg, Recognize;
      var found := FindOption(app.options, parts.name, kind);
      var _ := PopBack();
      if found.None? {
        MoveMissing(kind, current);
        return None;
      }
      error := CollectInto(found.value, parts.name, parts.value, parts.rest);
      if error.None? && MaxNum(app.options[found.value]) == 0 && parts.rest != "" {
        args := args + ["-" + parts.rest];
      }
    }

    method ParsePositionalArg() returns (error: Option<Error>)
      requires Valid() && args != []
      modifies this`args, this`results, this`order, this`missing
      ensures Valid()
      ensures error.Some? ==> ParsePositional(app, old(View())) == Thrown(error.value)
      ensures error.None? ==> ParsePositional(app, old(View())) == Ok(View())
    {
      hide CountRemaining, FindPositional, AddResult;
      error := None;
      var s := Top(args);
      var taker := None;
      if app.positionalsAtEnd && |args| <= CountRemaining(results, app.options) {
        taker := FindPositional(app, View(), 0, s, true);
      }
      if taker.None? {
        taker := FindPositional(app, View(), 0, s, false);
      }
      if taker.Some? {
        Separate(taker.value);
        var _ := Add(taker.value, s);
        order := order + [taker.value];
        var _ := PopBack();
        return;
      }
      if app.positionalsAtEnd {
        return Some(Extras(args));
      }
      MoveMissing(Nothing, s);
      var _ := PopBack();
      ghost var popped := View();
      if app.prefixCommand {
        while args != []
          invariant Valid() && AllMissing(View()) == AllMissing(popped)
          decreases |args|
        {
          MoveMissing(Nothing, Top(args));
          var _ := PopBack();
        }
      }
    }

    method ParseOne() returns (error: Option<Error>)
      requires Valid() && args != []
      modifies this
      ensures Valid()
      ensures error.Some? ==> ParseSingle(app, old(View())) == Thrown(error.value)
      ensures error.None? ==> ParseSingle(app, old(View())) == Ok(View())
    {
      hide Recognize, ParseArg, ParsePositional;
      error := None;
      var kind := if positionalOnly then Nothing else Recognize(app, Top(args));
      match kind
      case PositionalMark =>
        var _ := PopBack();
        positionalOnly := true;
        MoveMissing(kind, "--");
      case Nothing =>
        error := ParsePositionalArg();
        if error.None? && app.positionalsAtEnd {
          positionalOnly := true;
        }
      case _ =>
        error := ParseOption(kind);
    }

    /** The loop of _parse on a reversed argument vector: it terminates on every one. */
    method Parse(arguments: seq<string>) returns (error: Option<Error>)
      requires Valid()
      modifies this
      ensures Valid()
      ensures
        var start := State(arguments, old(results), old(order), old(missing), false);
        if error.Some? then ParseAll(app, start) == Thrown(error.value) else ParseAll(app, start) == Ok(View())
    {
      hide ParseSingle;
      error := None;
      args, positionalOnly := arguments, false;
      ghost var start := View();
      while args != []
        invariant Valid() && ParseAll(app, View()) == ParseAll(app, start)
        invariant error.None?
        decreases Measure(args)
      {
        ghost var now := View();
        SingleDecreases(app, now);
        error := ParseOne();
        ParseAllStep(app, now);
        if error.Some? {
          return;
        }
      }
    }
  }

  lemma MinNeedsSize(o: Opt)
    ensures MinNum(o) > 0 ==> o.sizeMax > 0
  {
  }
}
