/** RegFileWriter.Write: the signature line, an empty line, then one block
    per subkey command, each followed by an empty line. */
module RegFileWriting {
  import opened RegTypes
  import opened Strings
  import opened RegistryCommands
  import opened RegFileReading

  /** The signature line and the empty line after it. */
  const Preamble: string := Signature + NewLine + NewLine

  /** One subkey command's block: its lines, then an empty line unless
      writing it raised. */
  function BlockEmission(k: SubKeyCmd): Emission
  {
    SubKeyEmission(k).Then(Emission(NewLine, Pass))
  }

  /** Emissions one after the other, up to the first that raises. */
  function Chain(es: seq<Emission>): Emission
  {
    if es == [] then Emission("", Pass)
    else Chain(es[..|es| - 1]).Then(es[|es| - 1])
  }

  /** The block of each command. */
  function Blocks(ks: seq<SubKeyCmd>): (r: seq<Emission>)
    ensures |r| == |ks|
  {
    seq(|ks|, i requires 0 <= i < |ks| => BlockEmission(ks[i]))
  }

  /** The blocks of the commands in order, up to the first that raises. */
  function BlocksEmission(ks: seq<SubKeyCmd>): Emission
  {
    Chain(Blocks(ks))
  }

  /** What Write leaves in the writer for a non-null command sequence. */
  function FileEmission(ks: seq<SubKeyCmd>): Emission
  {
    Emission(Preamble, Pass).Then(BlocksEmission(ks))
  }

  /** Emissions are chained one after the other: chaining a + b is chaining
      a, then b unless a raised. */
  lemma {:induction false} ChainAppend(a: seq<Emission>, b: seq<Emission>)
    ensures Chain(a + b) == Chain(a).Then(Chain(b))
    decreases |b|
  {
    if b == [] {
      assert a + b == a;
    } else {
      var n := |b|;
      var ab := a + b;
      assert ab[..|ab| - 1] == a + b[..n - 1];
      assert ab[|ab| - 1] == b[n - 1];
      assert Chain(ab) == Chain(a + b[..n - 1]).Then(b[n - 1]);
      ChainAppend(a, b[..n - 1]);
      ThenAssoc(Chain(a), Chain(b[..n - 1]), b[n - 1]);
    }
  }

  lemma BlocksAppend(a: seq<SubKeyCmd>, b: seq<SubKeyCmd>)
    ensures Blocks(a + b) == Blocks(a) + Blocks(b)
  {
  }

  /** Blocks are written one after the other: writing a + b is writing a,
      then b unless a raised. */
  lemma BlocksEmissionAppend(a: seq<SubKeyCmd>, b: seq<SubKeyCmd>)
    ensures BlocksEmission(a + b) == BlocksEmission(a).Then(BlocksEmission(b))
  {
    BlocksAppend(a, b);
    ChainAppend(Blocks(a), Blocks(b));
  }

  lemma ChainStep(es: seq<Emission>, i: nat)
    requires i < |es|
    ensures Chain(es[..i + 1]) == Chain(es[..i]).Then(es[i])
  {
    assert es[..i + 1][..i] == es[..i];
  }

  lemma BlocksStep(ks: seq<SubKeyCmd>, i: nat)
    requires i < |ks|
    ensures BlocksEmission(ks[..i + 1]) == BlocksEmission(ks[..i]).Then(BlockEmission(ks[i]))
  {
    assert Blocks(ks[..i + 1]) == Blocks(ks)[..i + 1];
    assert Blocks(ks[..i]) == Blocks(ks)[..i];
    ChainStep(Blocks(ks), i);
  }

  /** Once an emission raises, the later ones add nothing. */
  lemma ChainFailed(es: seq<Emission>, i: nat)
    requires i <= |es| && Chain(es[..i]).outcome.Fail?
    ensures Chain(es) == Chain(es[..i])
  {
    var a := es[..i];
    var b := es[i..];
    calc {
      Chain(es);
      { assert es == a + b; }
      Chain(a + b);
      { ChainAppend(a, b); }
      Chain(a).Then(Chain(b));
      Chain(a);
    }
  }

  lemma BlocksFailed(ks: seq<SubKeyCmd>, i: nat)
    requires i <= |ks| && BlocksEmission(ks[..i]).outcome.Fail?
    ensures BlocksEmission(ks) == BlocksEmission(ks[..i])
  {
    assert Blocks(ks[..i]) == Blocks(ks)[..i];
    ChainFailed(Blocks(ks), i);
  }

  /** The text of a file is the preamble followed by its blocks, so it
      always begins with the signature line and an empty line. */
  lemma FileEmissionStart(ks: seq<SubKeyCmd>)
    ensures FileEmission(ks).text == Preamble + BlocksEmission(ks).text
    ensures FileEmission(ks).outcome == BlocksEmission(ks).outcome
    ensures FileEmission(ks).text[..|Preamble|] == Signature + "\n\n"
  {
  }

  /** An empty command sequence gives the signature and two newlines. */
  lemma FileEmissionEmpty()
    ensures FileEmission([]) == Emission("Windows Registry Editor Version 5.00\n\n", Pass)
  {
    assert Blocks([]) == [];
  }

  /** A block that is written in full ends with one empty line, after the
      subkey command's own text. */
  lemma BlockEmissionWritten(k: SubKeyCmd)
    requires SubKeyEmission(k).outcome.Pass?
    ensures BlockEmission(k) == Emission(SubKeyEmission(k).text + "\n", Pass)
  {
  }

  /** Writing a further command adds its block after the others. */
  lemma FileEmissionSnoc(ks: seq<SubKeyCmd>, k: SubKeyCmd)
    requires FileEmission(ks).outcome.Pass?
    ensures FileEmission(ks + [k]).text == FileEmission(ks).text + BlockEmission(k).text
    ensures FileEmission(ks + [k]).outcome == BlockEmission(k).outcome
  {
    assert BlocksEmission(ks + [k]) == BlocksEmission(ks).Then(BlockEmission(k)) by {
      BlocksEmissionAppend(ks, [k]);
      assert Blocks([k]) == [BlockEmission(k)];
      assert Chain([BlockEmission(k)]) == BlockEmission(k) by {
        assert [BlockEmission(k)][..0] == [];
      }
    }
    AppendAssoc(Preamble, BlocksEmission(ks).text, BlockEmission(k).text);
  }

  /** A block's text and outcome from the command's own. */
  lemma BlockEmissionParts(k: SubKeyCmd)
    ensures var e := SubKeyEmission(k);
      && BlockEmission(k).text == (if e.outcome.Pass? then e.text + NewLine else e.text)
      && BlockEmission(k).outcome == e.outcome
  {
  }

  /** One pass of the foreach of Write: the command, then an empty line. */
  method WriteBlock(k: RegistrySubKeyCommand, writer: TextWriter) returns (r: Outcome)
    modifies writer
    ensures writer.Written == old(writer.Written) + BlockEmission(old(k.Model())).text
    ensures r == BlockEmission(old(k.Model())).outcome
  {
    ghost var start := writer.Written;
    ghost var m := k.Model();
    BlockEmissionParts(m);
    r := k.WriteTo(writer);
    if r.Pass? {
      writer.WriteLine("");
      AppendAssoc(start, SubKeyEmission(m).text, NewLine);
    }
  }

  /** One pass of the foreach of Write; writing one subkey command leaves
      the models of all of them as they were. */
  method WriteBlockAt(ks: seq<RegistrySubKeyCommand>, i: nat, writer: TextWriter) returns (r: Outcome)
    requires i < |ks|
    modifies writer
    ensures SubKeyModels(ks) == old(SubKeyModels(ks))
    ensures writer.Written == old(writer.Written) + BlockEmission(old(SubKeyModels(ks))[i]).text
    ensures r == BlockEmission(old(SubKeyModels(ks))[i]).outcome
  {
    SubKeyModelsIndex(ks, i);
    r := WriteBlock(ks[i], writer);
  }

  /** The foreach of Write: each command's block, up to the first command
      that raises. */
  method WriteBlocks(ks: seq<RegistrySubKeyCommand>, writer: TextWriter) returns (r: Outcome)
    modifies writer
    ensures writer.Written == old(writer.Written) + BlocksEmission(SubKeyModels(ks)).text
    ensures r == BlocksEmission(SubKeyModels(ks)).outcome
  {
    ghost var start := writer.Written;
    ghost var models := SubKeyModels(ks);
    r := Pass;
    var i := 0;
    while i < |ks| && r.Pass?
      invariant 0 <= i <= |ks|
      invariant SubKeyModels(ks) == models
      invariant writer.Written == start + BlocksEmission(models[..i]).text
      invariant BlocksEmission(models[..i]).outcome == r
    {
      ghost var before := BlocksEmission(models[..i]).text;
      r := WriteBlockAt(ks, i, writer);
      assert writer.Written == start + (before + BlockEmission(models[i]).text) by {
        AppendAssoc(start, before, BlockEmission(models[i]).text);
      }
      BlocksStep(models, i);
      i := i + 1;
    }
    if r.Fail? {
      BlocksFailed(models, i);
    } else {
      assert models[..i] == models;
    }
  }

  /** RegFileWriter over a TextWriter. Opening a file by name, the close
      flag and Dispose are stream management and are not modelled. */
  class RegFileWriter {
    var writer: TextWriter

    constructor(writer: TextWriter)
      ensures this.writer == writer
    {
      this.writer := writer;
    }

    /** Write: null commands raise ArgumentNullException before anything
        is written; otherwise the writer receives FileEmission of the
        commands' models. */
    method Write(commands: Option<seq<RegistrySubKeyCommand>>) returns (r: Outcome)
      modifies writer
      ensures commands.Nothing? ==> r == Fail(ArgumentNullException) && writer.Written == old(writer.Written)
      ensures commands.Some? ==>
        && writer.Written == old(writer.Written) + FileEmission(SubKeyModels(commands.value)).text
        && r == FileEmission(SubKeyModels(commands.value)).outcome
    {
      if commands.Nothing? {
        return Fail(ArgumentNullException);
      }
      var w := writer;
      ghost var start := w.Written;
      w.WriteLine(Signature);
      w.WriteLine("");
      assert w.Written == start + Preamble by {
        AppendAssoc(start, Signature, NewLine);
        AppendAssoc(start, Signature + NewLine, NewLine);
      }
      ghost var blocks := BlocksEmission(SubKeyModels(commands.value));
      r := WriteBlocks(commands.value, w);
      AppendAssoc(start, Preamble, blocks.text);
    }
  }
}
