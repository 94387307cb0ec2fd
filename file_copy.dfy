/** The `file.copy` action: its fields with their defaults, the chmod
    decoder, and the planner that turns the action into four atoms. */
module FileCopyAction {
  import opened Wrappers
  import opened Numerals
  import opened Atoms
  import opened RustPath

  /** A declared `file.copy` action after deserialisation. */
  datatype FileCopy = FileCopy(from: string, to: string, chmod: uint32, template: bool)

  /** `default_chmod`: octal 644 (owner read/write, group and others read). */
  function DefaultChmod(): (r: uint32)
    ensures OctalLiteral(r as nat) == 644
  {
    420
  }

  /** `default_template`: contents are loaded, not rendered, unless asked. */
  function DefaultTemplate(): (r: bool)
    ensures !r
  {
    false
  }

  // ---------------------------------------------------------------------
  // The chmod decoder

  /** `from_octal`: the u32 the user wrote is rendered back to decimal text
      and that text is parsed in base 8. The decimal digits are read as
      base-8 digits; decoding fails, with InvalidDigit, exactly when a digit
      is 8 or 9. */
  function FromOctal(chmod: uint32): (r: Result<uint32, IntErrorKind>)
    ensures var s := ToDecimalString(chmod as nat);
      && (r.Ok? <==> DigitsBelow(s, 8))
      && (r.Ok? ==> r.value as int == DigitsValue(s, 8))
      && (r.Err? ==> r.error == InvalidDigit)
  {
    var s := ToDecimalString(chmod as nat);
    ToDecimalStringValue(chmod as nat);
    AccumulateDecimal(s, 8);
    FromStrRadix(s, 8)
  }

  /** The literal a user writes for the permission bits v: the base-8 digits
      of v, written as a decimal number. */
  function OctalLiteral(v: nat): nat
    decreases v
  {
    if v < 8 then v else OctalLiteral(v / 8) * 10 + v % 8
  }

  /** Decoding fails if and only if the literal has a digit 8 or 9, and the
      only error it reports is InvalidDigit. */
  lemma FromOctalFailsIff(chmod: uint32)
    ensures var s := ToDecimalString(chmod as nat);
      FromOctal(chmod).Err? <==> exists i :: 0 <= i < |s| && (s[i] == '8' || s[i] == '9')
    ensures FromOctal(chmod).Err? ==> FromOctal(chmod).error == InvalidDigit
  {
    var s := ToDecimalString(chmod as nat);
    assert FromOctal(chmod).Ok? <==> DigitsBelow(s, 8);
    if !DigitsBelow(s, 8) {
      var i :| 0 <= i < |s| && DigitValue(s[i]) >= 8;
      assert ToDecimalString(chmod as nat)[i] == '8' || ToDecimalString(chmod as nat)[i] == '9';
    } else {
      forall i | 0 <= i < |s| ensures s[i] != '8' && s[i] != '9' {
        assert DigitValue(s[i]) < 8;
      }
    }
  }

  /** Decoding never overflows: a decoded mode is at most the literal. */
  lemma FromOctalNoOverflow(chmod: uint32)
    ensures FromOctal(chmod) != Err(PosOverflow) && FromOctal(chmod) != Err(Empty)
    ensures FromOctal(chmod).Ok? ==> FromOctal(chmod).value <= chmod
  {
    var s := ToDecimalString(chmod as nat);
    ToDecimalStringValue(chmod as nat);
    DigitsValueMonotone(s, 8, 10);
  }

  /** The octal literal of v is never smaller than v. */
  lemma {:induction false} OctalLiteralAtLeast(v: nat)
    ensures OctalLiteral(v) >= v
    ensures v >= 1 ==> OctalLiteral(v) >= 1
    decreases v
  {
    if v >= 8 {
      OctalLiteralAtLeast(v / 8);
    }
  }

  /** The decimal rendering of an octal literal is the list of base-8 digits
      of v. */
  lemma {:induction false} OctalLiteralDigits(v: nat)
    ensures var s := ToDecimalString(OctalLiteral(v));
      DigitsBelow(s, 8) && DigitsValue(s, 8) == v
    decreases v
  {
    var n := OctalLiteral(v);
    var s := ToDecimalString(n);
    if v >= 8 {
      OctalLiteralAtLeast(v / 8);
      OctalLiteralDigits(v / 8);
      assert n / 10 == OctalLiteral(v / 8) && n % 10 == v % 8;
      var p := ToDecimalString(n / 10);
      assert s == p + [DigitChar(v % 8)];
      assert s[..|s| - 1] == p;
      forall i | 0 <= i < |s| ensures DigitValue(s[i]) < 8 {
        if i < |p| { assert s[i] == p[i]; }
      }
    }
  }

  /** Round trip: writing the permission bits v as an octal literal and
      decoding it gives v back. */
  lemma FromOctalRoundTrip(v: nat)
    requires OctalLiteral(v) <= U32_MAX
    ensures FromOctal(OctalLiteral(v) as uint32).Ok?
    ensures FromOctal(OctalLiteral(v) as uint32).value as int == v
  {
    OctalLiteralDigits(v);
  }

  /** A nonzero number's decimal digits, read in base 8, are nonzero. */
  lemma {:induction false} OctalReadingPositive(n: nat)
    requires n >= 1
    ensures DigitsValue(ToDecimalString(n), 8) >= 1
    decreases n
  {
    var s := ToDecimalString(n);
    if n >= 10 {
      assert s[..|s| - 1] == ToDecimalString(n / 10);
      OctalReadingPositive(n / 10);
    }
  }

  /** Appending a base-8 digit to a positive number appends it to the
      number's octal literal. */
  lemma OctalLiteralStep(w: nat, d: nat)
    requires w >= 1 && d < 8
    ensures OctalLiteral(w * 8 + d) == OctalLiteral(w) * 10 + d
  {
    assert (w * 8 + d) / 8 == w && (w * 8 + d) % 8 == d;
  }

  /** Reading a literal whose digits are all below 8 in base 8, and writing
      the result as an octal literal, gives the literal back. */
  lemma {:induction false} OctalReadingInverse(n: nat)
    requires DigitsBelow(ToDecimalString(n), 8)
    ensures OctalLiteral(DigitsValue(ToDecimalString(n), 8)) == n
    decreases n
  {
    var s := ToDecimalString(n);
    if n >= 10 {
      var p := ToDecimalString(n / 10);
      assert s[..|s| - 1] == p;
      assert s[|s| - 1] == DigitChar(n % 10);
      forall i | 0 <= i < |p| ensures DigitValue(p[i]) < 8 {
        assert p[i] == s[i];
      }
      OctalReadingInverse(n / 10);
      OctalReadingPositive(n / 10);
      var w := DigitsValue(p, 8);
      assert DigitsValue(s, 8) == w * 8 + n % 10;
      assert n % 10 < 8 by { assert DigitValue(s[|s| - 1]) < 8; }
      OctalLiteralStep(w, n % 10);
    } else {
      assert DigitValue(s[0]) == n;
    }
  }

  /** Conversely, every decoded mode is the mode whose octal literal the user
      wrote: decoding is injective and OctalLiteral is its inverse. */
  lemma FromOctalInverse(chmod: uint32)
    ensures FromOctal(chmod).Ok? ==> OctalLiteral(FromOctal(chmod).value as nat) == chmod as nat
  {
    if FromOctal(chmod).Ok? {
      OctalReadingInverse(chmod as nat);
    }
  }

  /** Typical modes: 644, 755 and 0 decode to 420, 493 and 0; a literal
      with an 8 or a 9 is refused. */
  lemma FromOctalExamples()
    ensures FromOctal(644) == Ok(420)
    ensures FromOctal(755) == Ok(493)
    ensures FromOctal(0) == Ok(0)
    ensures FromOctal(648) == Err(InvalidDigit)
    ensures FromOctal(9) == Err(InvalidDigit)
  {
    assert OctalLiteral(420) == 644;
    FromOctalRoundTrip(420);
    assert OctalLiteral(493) == 755;
    FromOctalRoundTrip(493);
    FromOctalRoundTrip(0);
    assert ToDecimalString(648)[2] == '8';
    FromOctalFailsIff(648);
    assert ToDecimalString(9)[0] == '9';
    FromOctalFailsIff(9);
  }

  /** Deserialising a `file.copy` entry: an omitted chmod takes the default
      (it is not decoded), a given one goes through FromOctal; an omitted
      template is false. */
  function Deserialize(from: string, to: string, chmod: Option<uint32>, template: Option<bool>): (r: Result<FileCopy, IntErrorKind>)
    ensures r.Err? <==> chmod.Some? && FromOctal(chmod.value).Err?
    ensures r.Err? ==> r.error == InvalidDigit
    ensures r.Ok? ==> r.value.from == from && r.value.to == to
    ensures r.Ok? ==> (r.value.template <==> template == Some(true))
    ensures r.Ok? && chmod.None? ==> r.value.chmod == DefaultChmod()
    ensures r.Ok? && chmod.Some? ==> OctalLiteral(r.value.chmod as nat) == chmod.value as nat
  {
    match chmod
    case None => Ok(FileCopy(from, to, DefaultChmod(), template.GetOr(DefaultTemplate())))
    case Some(literal) =>
      FromOctalInverse(literal);
      FromOctalFailsIff(literal);
      match FromOctal(literal)
      case Err(e) => Err(e)
      case Ok(mode) => Ok(FileCopy(from, to, mode, template.GetOr(DefaultTemplate())))
  }

  /** `from: a, to: b` deserialises with chmod 420 (octal 644) and template
      false, and leaving chmod out is the same as writing 644. */
  lemma DeserializeDefaults(from: string, to: string, template: Option<bool>)
    ensures Deserialize(from, to, None, None) == Ok(FileCopy(from, to, 420, false))
    ensures Deserialize(from, to, None, template) == Deserialize(from, to, Some(644), template)
  {
    FromOctalExamples();
  }

  // ---------------------------------------------------------------------
  // Planning

  /** Why rendering or loading the contents failed; the detail is not modelled. */
  datatype ContentError = ContentError

  /** `Option::unwrap` on a missing parent of `to` panics. */
  datatype Panic = MissingParent

  /** The contents of the copied file: `from` rendered as a template when
      `template` is set, else the file `from` loaded. `render` stands for the
      template engine bound to the manifest and context, `load` for reading a
      file relative to the manifest. */
  function Contents(action: FileCopy, render: string -> Result<string, ContentError>, load: string -> Result<string, ContentError>): (r: Result<string, ContentError>)
    ensures action.template ==> r == render(action.from)
    ensures !action.template ==> r == load(action.from)
  {
    if action.template then render(action.from) else load(action.from)
  }

  /** `FileCopy::plan`. On a contents failure the plan is empty; otherwise it
      is mkdir -p of the parent of `to` (as `Path::parent` computes it), create
      `to`, set its mode, set its contents. The parent of a `to` that has none
      (no component but the root, as for "", "/" and "/.") is unwrapped: that
      panics, and only after the contents were obtained. */
  function Plan(action: FileCopy, render: string -> Result<string, ContentError>, load: string -> Result<string, ContentError>): (r: Result<seq<Atom>, Panic>)
    ensures Contents(action, render, load).Err? ==> r == Ok([])
    ensures r.Err? <==> Contents(action, render, load).Ok? && NoParent(action.to)
    ensures r.Err? <==> Contents(action, render, load).Ok? && Parent(action.to).None?
    ensures r.Ok? && Contents(action, render, load).Ok? ==>
      var atoms := r.value;
      && |atoms| == 4
      && atoms[0].Run? && atoms[1].Create? && atoms[2].Chmod? && atoms[3].SetContents?
      && atoms[1].path == action.to && atoms[2].path == action.to && atoms[3].path == action.to
      && atoms[0].exec == Command("mkdir", ["-p", Parent(action.to).value])
      && atoms[2].mode == action.chmod
      && atoms[3].contents == Contents(action, render, load).value
  {
    ParentSpec(action.to);
    var contents := Contents(action, render, load);
    var parent := Parent(action.to);
    if contents.Err? then Ok([])
    else if parent.None? then Err(MissingParent)
    else
      Ok([Run(Command("mkdir", ["-p", parent.value])),
          Create(action.to),
          Chmod(action.to, action.chmod),
          SetContents(action.to, contents.value)])
  }

  /** The plan takes its contents from the one source `template` selects: the
      other collaborator is never consulted. */
  lemma PlanUsesSelectedSource(action: FileCopy, render: string -> Result<string, ContentError>, render': string -> Result<string, ContentError>, load: string -> Result<string, ContentError>, load': string -> Result<string, ContentError>)
    ensures action.template ==> Plan(action, render, load) == Plan(action, render, load')
    ensures !action.template ==> Plan(action, render, load) == Plan(action, render', load)
  {
  }

  /** A plan either is empty or has the four atoms; the parent directory is
      created before the file, its mode is set before its contents, and the
      directory created is a proper prefix of the path created. */
  lemma PlanOrder(action: FileCopy, render: string -> Result<string, ContentError>, load: string -> Result<string, ContentError>)
    requires Plan(action, render, load).Ok?
    ensures var atoms := Plan(action, render, load).value;
      && (|atoms| == 0 || |atoms| == 4)
      && (|atoms| == 4 ==>
            && atoms[0].exec.arguments[1] < atoms[1].path
            && |atoms[0].exec.arguments[1]| < |atoms[1].path|
            && atoms[2].path == atoms[3].path == atoms[1].path)
  {
    ParentSpec(action.to);
  }

  /** Declaring and planning together: a `file.copy` with chmod literal L and
      readable contents plans a Chmod atom whose mode, written in octal, is L;
      without a chmod it sets mode 420. */
  lemma DeclaredModeIsPlanned(from: string, to: string, chmod: Option<uint32>, template: Option<bool>, render: string -> Result<string, ContentError>, load: string -> Result<string, ContentError>)
    requires Deserialize(from, to, chmod, template).Ok?
    requires !NoParent(to)
    requires Contents(Deserialize(from, to, chmod, template).value, render, load).Ok?
    ensures var atoms := Plan(Deserialize(from, to, chmod, template).value, render, load).value;
      && atoms[2] == Chmod(to, atoms[2].mode)
      && (chmod.None? ==> atoms[2].mode == 420)
      && (chmod.Some? ==> OctalLiteral(atoms[2].mode as nat) == chmod.value as nat)
  {
  }
}
