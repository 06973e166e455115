/** java.lang.String.format for templates whose only format specifiers are
    %s, each consuming the next argument and inserting it unchanged (every
    argument here is a non-null String), and %%, which yields a percent sign.
    Arguments left over once the template is done are ignored, as Java does;
    a %s with no argument left is MissingFormatArgumentException, and any other
    character after a percent sign is treated as an unknown conversion.
    Errors are reported in the order the template is read, left to right; Java
    parses the whole template before it consumes an argument, so for a template
    with both a surplus %s and a bad conversion later on ("%s%q" with no
    arguments) Java reports the unknown conversion where this model reports the
    missing argument. The templates of this model have no bad conversion. */
module StringFormat {
  import opened Wrappers

  datatype FormatError =
    | MissingFormatArgument
    | UnknownFormatConversion(conversion: char)

  /** Puts `prefix` in front of a successful result; an error stays. */
  function Prepend(prefix: string, r: Result<string, FormatError>): (r': Result<string, FormatError>)
    ensures r'.Ok? <==> r.Ok?
    ensures r.Ok? ==> r'.value == prefix + r.value
    ensures r.Err? ==> r' == r
  {
    match r
    case Ok(s) => Ok(prefix + s)
    case Err(e) => Err(e)
  }

  function Format(template: string, args: seq<string>): Result<string, FormatError>
    decreases |template|
  {
    if template == [] then Ok([])
    else if template[0] != '%' then Prepend([template[0]], Format(template[1..], args))
    else if |template| == 1 then Err(UnknownFormatConversion('%'))
    else if template[1] == 's' then
      if args == [] then Err(MissingFormatArgument)
      else Prepend(args[0], Format(template[2..], args[1..]))
    else if template[1] == '%' then Prepend("%", Format(template[2..], args))
    else Err(UnknownFormatConversion(template[1]))
  }

  /** The number of %s specifiers, that is the arguments the template consumes. */
  function Slots(template: string): nat
    decreases |template|
  {
    if |template| < 2 then 0
    else if template[0] == '%' && template[1] == 's' then 1 + Slots(template[2..])
    else if template[0] == '%' && template[1] == '%' then Slots(template[2..])
    else Slots(template[1..])
  }

  /** Text without a percent sign is copied unchanged in front of the rest. */
  lemma {:induction false} FormatLiteral(literal: string, rest: string, args: seq<string>)
    requires '%' !in literal
    ensures Format(literal + rest, args) == Prepend(literal, Format(rest, args))
    decreases |literal|
  {
    if literal != [] {
      var t := literal + rest;
      assert t[0] == literal[0];
      assert t[1..] == literal[1..] + rest;
      assert literal[0] in literal;
      assert forall c :: c in literal[1..] ==> c in literal;
      FormatLiteral(literal[1..], rest, args);
      var r := Format(rest, args);
      if r.Ok? {
        assert [literal[0]] + (literal[1..] + r.value) == literal + r.value;
      }
    } else {
      assert literal + rest == rest;
      var r := Format(rest, args);
      if r.Ok? {
        assert literal + r.value == r.value;
      }
    }
  }

  /** A %s inserts the next argument verbatim. */
  lemma FormatSlot(rest: string, arg: string, args: seq<string>)
    ensures Format("%s" + rest, [arg] + args) == Prepend(arg, Format(rest, args))
  {
    var t := "%s" + rest;
    assert t[0] == '%' && t[1] == 's' && t[2..] == rest;
    assert ([arg] + args)[1..] == args;
  }

  /** A template that formats with some arguments formats the same with more:
      surplus arguments are ignored. */
  lemma {:induction false} FormatIgnoresSurplusArguments(template: string, args: seq<string>, more: seq<string>)
    requires Format(template, args).Ok?
    ensures Format(template, args + more) == Format(template, args)
    decreases |template|
  {
    if template != [] {
      if template[0] != '%' {
        FormatIgnoresSurplusArguments(template[1..], args, more);
      } else if template[1] == 's' {
        assert (args + more)[1..] == args[1..] + more;
        FormatIgnoresSurplusArguments(template[2..], args[1..], more);
      } else if template[1] == '%' {
        FormatIgnoresSurplusArguments(template[2..], args, more);
      }
    }
  }

  /** Formatting succeeds only when there is an argument for every %s. */
  lemma {:induction false} FormatNeedsEverySlot(template: string, args: seq<string>)
    requires Format(template, args).Ok?
    ensures Slots(template) <= |args|
    decreases |template|
  {
    if template != [] {
      if template[0] != '%' {
        FormatNeedsEverySlot(template[1..], args);
        if |template| >= 2 {
          assert Slots(template) == Slots(template[1..]);
        }
      } else if template[1] == 's' {
        FormatNeedsEverySlot(template[2..], args[1..]);
      } else if template[1] == '%' {
        FormatNeedsEverySlot(template[2..], args);
      }
    }
  }

  /** Text without a percent sign followed by a %s: both go in front of
      whatever the rest of the template yields with the remaining arguments. */
  lemma FormatTextThenSlot(text: string, rest: string, arg: string, args: seq<string>, out: string)
    requires '%' !in text
    requires Format(rest, args) == Ok(out)
    ensures Format(text + ("%s" + rest), [arg] + args) == Ok(text + (arg + out))
  {
    FormatLiteral(text, "%s" + rest, [arg] + args);
    FormatSlot(rest, arg, args);
  }

  /** A template of three %s slots between texts without a percent sign,
      filled with three arguments: the texts are copied and each slot receives
      its argument verbatim. */
  lemma FormatThreeSlots(p0: string, p1: string, p2: string, p3: string, a: string, b: string, c: string)
    requires '%' !in p0 && '%' !in p1 && '%' !in p2 && '%' !in p3
    ensures Format(p0 + ("%s" + (p1 + ("%s" + (p2 + ("%s" + p3))))), [a, b, c])
         == Ok(p0 + (a + (p1 + (b + (p2 + (c + p3))))))
  {
    assert p3 + [] == p3;
    FormatLiteral(p3, [], []);
    assert [c] + [] == [c];
    FormatTextThenSlot(p2, p3, c, [], p3);
    assert [b] + [c] == [b, c];
    FormatTextThenSlot(p1, p2 + ("%s" + p3), b, [c], p2 + (c + p3));
    assert [a] + [b, c] == [a, b, c];
    FormatTextThenSlot(p0, p1 + ("%s" + (p2 + ("%s" + p3))), a, [b, c], p1 + (b + (p2 + (c + p3))));
  }
}
