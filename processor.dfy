/** AbstractRegCommandProcessor: the two Process overloads, with the three
    abstract callbacks recorded as events in the order they are called. */
module CommandProcessing {
  import opened RegTypes
  import opened RegistryCommands

  /** One callback: ProcessSubKeyRemove(hive, subKey),
      ProcessValueRemove(hive, subKey, name) or
      ProcessValueUpdate(hive, subKey, name, value, kind). */
  datatype Event =
    | SubKeyRemove(hive: Hive, subKey: string)
    | ValueRemove(hive: Hive, subKey: string, name: string)
    | ValueUpdate(hive: Hive, subKey: string, name: string, value: Value, kind: ValueKind)

  /** The callback for one value command of a subkey that is kept. */
  function ValueEvent(k: SubKeyCmd, v: ValueCmd): Event
  {
    if v.remove then ValueRemove(k.hive, k.subKey, v.name)
    else ValueUpdate(k.hive, k.subKey, v.name, v.value, v.info.kind)
  }

  /** The callbacks of the inner foreach, in list order. */
  function ValueEvents(k: SubKeyCmd, cs: seq<ValueCmd>): (r: seq<Event>)
    ensures |r| == |cs|
  {
    if cs == [] then [] else ValueEvents(k, cs[..|cs| - 1]) + [ValueEvent(k, cs[|cs| - 1])]
  }

  /** Process(command): a removal is one ProcessSubKeyRemove and nothing
      for its values; otherwise one callback per value command. */
  function SubKeyEvents(k: SubKeyCmd): seq<Event>
  {
    if k.remove then [SubKeyRemove(k.hive, k.subKey)] else ValueEvents(k, k.commands)
  }

  /** Process(commands): the subkey commands one after the other. */
  function AllEvents(ks: seq<SubKeyCmd>): seq<Event>
  {
    if ks == [] then [] else AllEvents(ks[..|ks| - 1]) + SubKeyEvents(ks[|ks| - 1])
  }

  /** The j-th callback of a kept subkey is the one for its j-th value
      command: a removal exactly when the command is one, naming the
      subkey's hive and path and the command's name (the empty name for the
      default value). */
  lemma {:induction false} ValueEventsIndex(k: SubKeyCmd, cs: seq<ValueCmd>, j: nat)
    requires j < |cs|
    ensures ValueEvents(k, cs)[j] == ValueEvent(k, cs[j])
    ensures ValueEvents(k, cs)[j].ValueRemove? <==> cs[j].remove
    ensures ValueEvents(k, cs)[j].hive == k.hive && ValueEvents(k, cs)[j].subKey == k.subKey
    ensures !ValueEvents(k, cs)[j].SubKeyRemove? && ValueEvents(k, cs)[j].name == cs[j].name
    decreases |cs|
  {
    if j < |cs| - 1 {
      ValueEventsIndex(k, cs[..|cs| - 1], j);
    }
  }

  /** A removal subkey reports just itself, whatever values it holds. */
  lemma SubKeyRemoveIgnoresValues(k: SubKeyCmd, cs: seq<ValueCmd>)
    requires k.remove
    ensures SubKeyEvents(k) == SubKeyEvents(k.(commands := cs)) == [SubKeyRemove(k.hive, k.subKey)]
  {
  }

  /** A kept subkey reports one callback per value command and never a
      subkey removal. */
  lemma SubKeyKeptEvents(k: SubKeyCmd)
    requires !k.remove
    ensures |SubKeyEvents(k)| == |k.commands|
    ensures forall j :: 0 <= j < |k.commands| ==> SubKeyEvents(k)[j] == ValueEvent(k, k.commands[j])
  {
    forall j | 0 <= j < |k.commands| ensures SubKeyEvents(k)[j] == ValueEvent(k, k.commands[j]) {
      ValueEventsIndex(k, k.commands, j);
    }
  }

  lemma EventsAssoc(a: seq<Event>, b: seq<Event>, c: seq<Event>)
    ensures (a + b) + c == a + (b + c)
  {
  }

  lemma AllEventsStep(ks: seq<SubKeyCmd>, i: nat)
    requires i < |ks|
    ensures AllEvents(ks[..i + 1]) == AllEvents(ks[..i]) + SubKeyEvents(ks[i])
  {
    assert ks[..i + 1][..i] == ks[..i];
  }

  lemma ValueEventsStep(k: SubKeyCmd, cs: seq<ValueCmd>, i: nat)
    requires i < |cs|
    ensures ValueEvents(k, cs[..i + 1]) == ValueEvents(k, cs[..i]) + [ValueEvent(k, cs[i])]
  {
    assert cs[..i + 1][..i] == cs[..i];
  }

  /** The subkey commands are processed in order: the callbacks for a + b
      are those for a, then those for b. */
  lemma {:induction false} AllEventsAppend(a: seq<SubKeyCmd>, b: seq<SubKeyCmd>)
    ensures AllEvents(a + b) == AllEvents(a) + AllEvents(b)
    decreases |b|
  {
    if b == [] {
      assert a + b == a;
    } else {
      var n := |b|;
      var init := b[..n - 1];
      var last := SubKeyEvents(b[n - 1]);
      assert AllEvents(a + b) == AllEvents(a + init) + last by {
        assert (a + b)[..|a + b| - 1] == a + init;
        assert (a + b)[|a + b| - 1] == b[n - 1];
      }
      assert AllEvents(a + init) == AllEvents(a) + AllEvents(init) by {
        AllEventsAppend(a, init);
      }
      assert AllEvents(b) == AllEvents(init) + last;
      EventsAssoc(AllEvents(a), AllEvents(init), last);
    }
  }

  /** The callbacks of a value-less kept subkey: none at all. */
  lemma EmptySubKeyEvents(k: SubKeyCmd)
    requires !k.remove && k.commands == []
    ensures SubKeyEvents(k) == []
  {
  }

  /** A processor that records its callbacks in Trace, in call order. */
  class AbstractRegCommandProcessor {
    var Trace: seq<Event>

    constructor()
      ensures Trace == []
    {
      Trace := [];
    }

    method ProcessSubKeyRemove(hive: Hive, subKey: string)
      modifies this
      ensures Trace == old(Trace) + [SubKeyRemove(hive, subKey)]
    {
      Trace := Trace + [SubKeyRemove(hive, subKey)];
    }

    method ProcessValueRemove(hive: Hive, subKey: string, valueName: string)
      modifies this
      ensures Trace == old(Trace) + [ValueRemove(hive, subKey, valueName)]
    {
      Trace := Trace + [ValueRemove(hive, subKey, valueName)];
    }

    method ProcessValueUpdate(hive: Hive, subKey: string, valueName: string, value: Value, valueKind: ValueKind)
      modifies this
      ensures Trace == old(Trace) + [ValueUpdate(hive, subKey, valueName, value, valueKind)]
    {
      Trace := Trace + [ValueUpdate(hive, subKey, valueName, value, valueKind)];
    }

    /** Process(command): the callbacks SubKeyEvents gives for its model. */
    method ProcessSubKey(command: RegistrySubKeyCommand)
      modifies this
      ensures Trace == old(Trace) + SubKeyEvents(command.Model())
    {
      ghost var k := command.Model();
      if command.Remove {
        ProcessSubKeyRemove(command.Hive, command.SubKey);
        return;
      }
      var values := command.Commands;
      ghost var start := Trace;
      for i := 0 to |values|
        invariant command.Model() == k
        invariant Trace == start + ValueEvents(k, k.commands[..i])
      {
        var value := values[i];
        ValueModelsIndex(values, i);
        if value.Remove {
          ProcessValueRemove(command.Hive, command.SubKey, value.Name);
        } else {
          ProcessValueUpdate(command.Hive, command.SubKey, value.Name, value.Value, value.valueInfo.kind);
        }
        assert Trace == start + ValueEvents(k, k.commands[..i + 1]) by {
          ValueEventsStep(k, k.commands, i);
          EventsAssoc(start, ValueEvents(k, k.commands[..i]), [ValueEvent(k, k.commands[i])]);
        }
      }
      assert k.commands[..|values|] == k.commands;
    }

    /** One pass of the foreach of Process(commands); processing one
        command leaves the models of all of them as they were. */
    method ProcessAt(ks: seq<RegistrySubKeyCommand>, i: nat)
      requires i < |ks|
      modifies this
      ensures SubKeyModels(ks) == old(SubKeyModels(ks))
      ensures Trace == old(Trace) + SubKeyEvents(old(SubKeyModels(ks))[i])
    {
      SubKeyModelsIndex(ks, i);
      ProcessSubKey(ks[i]);
    }

    /** Process(commands): null raises ArgumentNullException and calls
        nothing; otherwise every subkey command is processed in order. */
    method Process(commands: Option<seq<RegistrySubKeyCommand>>) returns (r: Outcome)
      modifies this
      ensures commands.Nothing? ==> r == Fail(ArgumentNullException) && Trace == old(Trace)
      ensures commands.Some? ==> r == Pass && Trace == old(Trace) + AllEvents(SubKeyModels(commands.value))
    {
      if commands.Nothing? {
        return Fail(ArgumentNullException);
      }
      var ks := commands.value;
      ghost var models := SubKeyModels(ks);
      ghost var start := Trace;
      for i := 0 to |ks|
        invariant SubKeyModels(ks) == models
        invariant Trace == start + AllEvents(models[..i])
      {
        ProcessAt(ks, i);
        assert Trace == start + AllEvents(models[..i + 1]) by {
          AllEventsStep(models, i);
          EventsAssoc(start, AllEvents(models[..i]), SubKeyEvents(models[i]));
        }
      }
      assert models[..|ks|] == models;
      return Pass;
    }
  }
}
