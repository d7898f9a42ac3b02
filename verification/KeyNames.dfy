/**
The names the at-rest encryption keys carry inside the provider configuration.

A key of generation `g` is named `key<g>` (internal/assets/embed.go), and `rotate` reads the
generation back out of that name before it numbers the next one.  Everything the rotation
counts in etcd hangs on the two being inverse to each other.
*/
module KeyNames {

  import opened Options
  import opened Digits

  const PREFIX := "key"

  function KeyName(generation: nat): string {
    PREFIX + Decimal(generation)
  }

  /** `^key(\d+)$`: the generation a name carries, or None for a name rotation must refuse. */
  function Generation(name: string): Option<nat> {
    if |name| > 3 && name[..3] == PREFIX && AllDigits(name[3..]) then
      Some(DecimalValue(name[3..]))
    else
      None
  }

  /** The generation read back from a live configuration is the one the name was made from. */
  lemma GenerationOfKeyName(g: nat)
    ensures Generation(KeyName(g)) == Some(g)
  {
    DecimalRoundTrip(g);
    assert KeyName(g)[3..] == Decimal(g);
  }

  /** Only `key` and digits carry a generation, and it is the number they denote. */
  lemma GenerationExactly(name: string, digits: string)
    ensures AllDigits(digits) && digits != "" ==> Generation(PREFIX + digits) == Some(DecimalValue(digits))
    ensures Generation(name).Some? ==> |name| > 3 && name == PREFIX + name[3..] && AllDigits(name[3..])
  {
    var whole := PREFIX + digits;
    assert whole[..3] == PREFIX && whole[3..] == digits;
    if Generation(name).Some? {
      assert name == name[..3] + name[3..];
    }
  }

  /** Two generations never share a name, so a count by name in etcd is a count by generation. */
  lemma KeyNameInjective(g: nat, h: nat)
    ensures KeyName(g) == KeyName(h) <==> g == h
  {
    GenerationOfKeyName(g);
    GenerationOfKeyName(h);
  }
}
