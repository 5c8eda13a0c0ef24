/**
 Compilation of a release contract into the device's capability bits
 (sif_contractPolicy.hpp and compile_contract_policy in sif_release.cpp).
 */
module ContractPolicy {
  import opened Common

  type Bits = bv32

  /** A member of a parsed contract object that should be a list. */
  datatype Members<+T> = Missing | NotAnArray | Array(items: seq<T>)

  /** Fields are None when absent or not of the expected JSON type. */
  datatype KeyEntry = KeyEntry(name: Option<string>, kind: Option<string>)
  datatype InputEntry = InputEntry(resource: Option<string>, keys: Option<seq<KeyEntry>>)
  datatype OutputEntry = OutputEntry(name: Option<string>, kind: Option<string>)

  /** The contract text after JSON parsing. */
  datatype Contract =
    | NotAnObject
    | Contract(inputs: Members<InputEntry>, outputs: Members<OutputEntry>)

  datatype Policy = Policy(inputs: Bits, outputs: Bits, valid: bool)

  const NO_POLICY := Policy(0, 0, false)

  predicate SingleBit(b: Bits) {
    b in {0x01, 0x02, 0x04, 0x08, 0x10, 0x20, 0x40}
  }

  function InputBit(resource: string, key: string, kind: string): (bit: Bits)
    ensures bit == 0 || SingleBit(bit)
  {
    if resource == "BATTERY" then
      if key == "percent" && kind == "i32" then 0x01
      else if key == "voltageMv" && kind == "i32" then 0x02
      else 0
    else if resource == "DHT" then
      if key == "temperature" && kind == "f32" then 0x04
      else if key == "humidity" && kind == "f32" then 0x08
      else 0
    else if resource == "LIGHT" && key == "lux" && kind == "f32" then 0x10
    else if resource == "OCCUPANCY" && key == "distanceCm" && kind == "f32" then 0x20
    else if resource == "GPIO" && key == "buttonPressed" && kind == "bool" then 0x40
    else 0
  }

  function OutputBit(name: string, kind: string): (bit: Bits)
    ensures bit == 0 || SingleBit(bit)
  {
    if kind != "f32" then
      if kind != "i32" then 0
      else if name == "comfortScore" then 0x04
      else if name == "occupied" then 0x08
      else if name == "nextSampleSeconds" then 0x10
      else if name == "actuatorCommand" then 0x20
      else 0
    else if name == "temperatureF" then 0x01
    else if name == "heatIndexC" then 0x02
    else 0
  }

  /** The inputs a guest can be granted. */
  lemma SupportedInputs(resource: string, key: string, kind: string)
    ensures InputBit(resource, key, kind) != 0 <==>
            (resource, key, kind) in {
              ("BATTERY", "percent", "i32"), ("BATTERY", "voltageMv", "i32"), ("DHT", "temperature", "f32"), ("DHT", "humidity", "f32"),
              ("LIGHT", "lux", "f32"), ("OCCUPANCY", "distanceCm", "f32"), ("GPIO", "buttonPressed", "bool")}
  {
  }

  /** The outputs a guest can be granted. */
  lemma SupportedOutputs(name: string, kind: string)
    ensures OutputBit(name, kind) != 0 <==>
            (name, kind) in {
              ("temperatureF", "f32"), ("heatIndexC", "f32"), ("comfortScore", "i32"), ("occupied", "i32"),
              ("nextSampleSeconds", "i32"), ("actuatorCommand", "i32")}
  {
  }

  /** Distinct capabilities own distinct bits. */
  lemma InputBitInjective(r: string, k: string, t: string, r': string, k': string, t': string)
    requires InputBit(r, k, t) == InputBit(r', k', t') != 0
    ensures r == r' && k == k' && t == t'
  {
  }

  lemma OutputBitInjective(n: string, t: string, n': string, t': string)
    requires OutputBit(n, t) == OutputBit(n', t') != 0
    ensures n == n' && t == t'
  {
  }

  function Union(a: Bits, b: Bits): Bits {
    a | b
  }

  /** The union of a list of capability bits. */
  function OrAll(bits: seq<Bits>): Bits
  {
    if bits == [] then 0 else Union(OrAll(bits[..|bits| - 1]), bits[|bits| - 1])
  }

  lemma MaskTest(acc: Bits, b: Bits, q: Bits)
    requires b == 0 || SingleBit(b)
    requires SingleBit(q)
    ensures (acc | b) & q != 0 <==> acc & q != 0 || b == q
  {
    assert (acc | b) & q == (acc & q) | (b & q);
    assert b & q == if b == q then q else 0;
  }

  /** Testing one capability bit against a union sees exactly whether that bit was accumulated. */
  lemma {:induction false} UnionTest(bits: seq<Bits>, q: Bits)
    requires forall b :: b in bits ==> b == 0 || SingleBit(b)
    requires SingleBit(q)
    ensures Has(OrAll(bits), q) <==> q in bits
  {
    if bits != [] {
      var init, last := bits[..|bits| - 1], bits[|bits| - 1];
      assert bits == init + [last];
      UnionTest(init, q);
      MaskTest(OrAll(init), last, q);
    }
  }

  lemma OrAllAppend(bits: seq<Bits>, b: Bits)
    ensures OrAll(bits + [b]) == Union(OrAll(bits), b)
  {
    assert (bits + [b])[..|bits|] == bits;
  }

  // ------------------------------------------------- what a contract declares

  ghost predicate KeyDeclares(e: KeyEntry, key: string, kind: string) {
    e.name == Some(key) && e.kind == Some(kind)
  }

  ghost predicate EntryDeclares(e: InputEntry, resource: string, key: string, kind: string) {
    e.resource == Some(resource) && e.keys.Some?
    && exists k :: k in e.keys.value && KeyDeclares(k, key, kind)
  }

  ghost predicate WellFormed(c: Contract) {
    c.Contract? && !c.inputs.NotAnArray? && !c.outputs.NotAnArray?
  }

  ghost predicate DeclaresInput(c: Contract, resource: string, key: string, kind: string) {
    WellFormed(c) && c.inputs.Array?
    && exists e :: e in c.inputs.items && EntryDeclares(e, resource, key, kind)
  }

  ghost predicate OutputDeclares(e: OutputEntry, name: string, kind: string) {
    e.name == Some(name) && e.kind == Some(kind)
  }

  ghost predicate DeclaresOutput(c: Contract, name: string, kind: string) {
    WellFormed(c) && c.outputs.Array?
    && exists e :: e in c.outputs.items && OutputDeclares(e, name, kind)
  }

  // ------------------------------------------------- the compiler, as a union of bits

  function KeyBit(resource: string, k: KeyEntry): Bits {
    if k.name.Some? && k.kind.Some? then InputBit(resource, k.name.value, k.kind.value) else 0
  }

  function OutputEntryBit(e: OutputEntry): Bits {
    if e.name.Some? && e.kind.Some? then OutputBit(e.name.value, e.kind.value) else 0
  }

  function EntryBits(e: InputEntry): seq<Bits> {
    if e.resource.Some? && e.keys.Some?
    then seq(|e.keys.value|, i requires 0 <= i < |e.keys.value| => KeyBit(e.resource.value, e.keys.value[i]))
    else []
  }

  function InputBits(es: seq<InputEntry>): seq<Bits>
  {
    if es == [] then [] else InputBits(es[..|es| - 1]) + EntryBits(es[|es| - 1])
  }

  function OutputBits(es: seq<OutputEntry>): seq<Bits>
  {
    if es == [] then [] else OutputBits(es[..|es| - 1]) + [OutputEntryBit(es[|es| - 1])]
  }

  function Compile(c: Contract): Policy
  {
    if c.NotAnObject? || c.inputs.NotAnArray? || c.outputs.NotAnArray? then NO_POLICY
    else Policy(if c.inputs.Array? then OrAll(InputBits(c.inputs.items)) else 0,
                if c.outputs.Array? then OrAll(OutputBits(c.outputs.items)) else 0,
                true)
  }

  /** The mask contains the capability bit. */
  predicate Has(mask: Bits, bit: Bits) {
    mask & bit != 0
  }

  predicate InputDeclared(p: Policy, resource: string, key: string, kind: string) {
    var bit := InputBit(resource, key, kind);
    bit != 0 && p.valid && Has(p.inputs, bit)
  }

  predicate OutputDeclared(p: Policy, name: string, kind: string) {
    var bit := OutputBit(name, kind);
    bit != 0 && p.valid && Has(p.outputs, bit)
  }

  // ------------------------------------------------- the bits refine the contract

  lemma EntryBitsMeaning(e: InputEntry, r: string, key: string, kind: string)
    requires InputBit(r, key, kind) != 0
    ensures InputBit(r, key, kind) in EntryBits(e) <==> EntryDeclares(e, r, key, kind)
  {
    if e.resource.Some? && e.keys.Some? {
      var ks, bits := e.keys.value, EntryBits(e);
      assert forall i :: 0 <= i < |ks| ==>
          (bits[i] == InputBit(r, key, kind) <==> e.resource.value == r && KeyDeclares(ks[i], key, kind));
    }
  }

  lemma {:induction false} InputBitsMeaning(es: seq<InputEntry>, r: string, key: string, kind: string)
    requires InputBit(r, key, kind) != 0
    ensures InputBit(r, key, kind) in InputBits(es) <==> exists e :: e in es && EntryDeclares(e, r, key, kind)
    ensures forall b :: b in InputBits(es) ==> b == 0 || SingleBit(b)
  {
    if es != [] {
      var init, e := es[..|es| - 1], es[|es| - 1];
      InputBitsMeaning(init, r, key, kind);
      assert es == init + [e];
      EntryBitsMeaning(e, r, key, kind);
    }
  }

  lemma {:induction false} OutputBitsMeaning(es: seq<OutputEntry>, name: string, kind: string)
    requires OutputBit(name, kind) != 0
    ensures OutputBit(name, kind) in OutputBits(es) <==> exists e :: e in es && OutputDeclares(e, name, kind)
    ensures forall b :: b in OutputBits(es) ==> b == 0 || SingleBit(b)
  {
    if es != [] {
      var init, e := es[..|es| - 1], es[|es| - 1];
      OutputBitsMeaning(init, name, kind);
      assert es == init + [e];
      assert OutputEntryBit(e) == OutputBit(name, kind) <==> OutputDeclares(e, name, kind);
    }
  }

  lemma InputBitIsSingle(r: string, key: string, kind: string)
    requires InputBit(r, key, kind) != 0
    ensures SingleBit(InputBit(r, key, kind))
  {
  }

  lemma OutputBitIsSingle(name: string, kind: string)
    requires OutputBit(name, kind) != 0
    ensures SingleBit(OutputBit(name, kind))
  {
  }

  lemma InputMaskMeaning(es: seq<InputEntry>, r: string, key: string, kind: string, q: Bits)
    requires q == InputBit(r, key, kind) != 0
    ensures Has(OrAll(InputBits(es)), q) <==> exists e :: e in es && EntryDeclares(e, r, key, kind)
  {
    InputBitsMeaning(es, r, key, kind);
    InputBitIsSingle(r, key, kind);
    hide Has, InputBit, InputBits, OrAll, EntryDeclares;
    UnionTest(InputBits(es), q);
  }

  lemma OutputMaskMeaning(es: seq<OutputEntry>, name: string, kind: string, q: Bits)
    requires q == OutputBit(name, kind) != 0
    ensures Has(OrAll(OutputBits(es)), q) <==> exists e :: e in es && OutputDeclares(e, name, kind)
  {
    OutputBitsMeaning(es, name, kind);
    OutputBitIsSingle(name, kind);
    hide Has, OutputBit, OutputBits, OrAll, OutputDeclares;
    UnionTest(OutputBits(es), q);
  }

  lemma ZeroMask(q: Bits)
    ensures !Has(0, q)
  {
  }

  /** A compiled input query is true exactly for a supported capability that occurs in the contract. */
  lemma InputQueryRefinesContract(c: Contract, resource: string, key: string, kind: string)
    ensures InputDeclared(Compile(c), resource, key, kind) <==>
            InputBit(resource, key, kind) != 0 && DeclaresInput(c, resource, key, kind)
  {
    hide Has, InputBit, OrAll, InputBits, EntryDeclares;
    var q := InputBit(resource, key, kind);
    if q != 0 && WellFormed(c) {
      if c.inputs.Array? {
        InputMaskMeaning(c.inputs.items, resource, key, kind, q);
      } else {
        ZeroMask(q);
      }
    }
  }

  /** A compiled output query is true exactly for a supported capability that occurs in the contract. */
  lemma OutputQueryRefinesContract(c: Contract, name: string, kind: string)
    ensures OutputDeclared(Compile(c), name, kind) <==>
            OutputBit(name, kind) != 0 && DeclaresOutput(c, name, kind)
  {
    hide Has, OutputBit, OrAll, OutputBits, OutputDeclares;
    var q := OutputBit(name, kind);
    if q != 0 && WellFormed(c) {
      if c.outputs.Array? {
        OutputMaskMeaning(c.outputs.items, name, kind, q);
      } else {
        ZeroMask(q);
      }
    }
  }

  // ------------------------------------------------- the compiler's own loops

  method CollectKeys(resource: string, keys: seq<KeyEntry>, ghost before: seq<Bits>, mask: Bits) returns (inputs: Bits)
    requires mask == OrAll(before)
    ensures inputs == OrAll(before + EntryBits(InputEntry(Some(resource), Some(keys))))
  {
    hide InputBit, OrAll, Union;
    ghost var bits := EntryBits(InputEntry(Some(resource), Some(keys)));
    inputs := mask;
    assert before + bits[..0] == before;
    for j := 0 to |keys|
      invariant inputs == OrAll(before + bits[..j])
    {
      assert before + bits[..j + 1] == before + bits[..j] + [bits[j]];
      OrAllAppend(before + bits[..j], bits[j]);
      if keys[j].name.Some? && keys[j].kind.Some? {
        inputs := Union(inputs, InputBit(resource, keys[j].name.value, keys[j].kind.value));
      } else {
        OrZero(inputs);
      }
    }
    assert bits[..|keys|] == bits;
  }

  lemma OrAllEmpty(bits: seq<Bits>)
    requires bits == []
    ensures OrAll(bits) == 0
  {
  }

  lemma OrZero(mask: Bits)
    ensures Union(mask, 0) == mask
  {
  }

  method CollectInputs(items: seq<InputEntry>) returns (inputs: Bits)
    ensures inputs == OrAll(InputBits(items))
  {
    inputs := 0;
    for i := 0 to |items|
      invariant inputs == OrAll(InputBits(items[..i]))
    {
      assert items[..i + 1][..i] == items[..i];
      if items[i].resource.Some? && items[i].keys.Some? {
        inputs := CollectKeys(items[i].resource.value, items[i].keys.value, InputBits(items[..i]), inputs);
      } else {
        assert InputBits(items[..i + 1]) == InputBits(items[..i]);
      }
    }
    assert items[..|items|] == items;
  }

  method CollectOutputs(items: seq<OutputEntry>) returns (outputs: Bits)
    ensures outputs == OrAll(OutputBits(items))
  {
    hide OutputBit, OrAll, Union;
    outputs := 0;
    OrAllEmpty(OutputBits(items[..0]));
    for i := 0 to |items|
      invariant outputs == OrAll(OutputBits(items[..i]))
    {
      assert items[..i + 1][..i] == items[..i];
      OrAllAppend(OutputBits(items[..i]), OutputEntryBit(items[i]));
      if items[i].name.Some? && items[i].kind.Some? {
        outputs := Union(outputs, OutputBit(items[i].name.value, items[i].kind.value));
      } else {
        OrZero(outputs);
      }
    }
    assert items[..|items|] == items;
  }

  /** The policy starts empty and is valid only once every member has been accumulated. */
  method CompileContract(c: Contract) returns (policy: Policy)
    ensures policy == Compile(c)
  {
    policy := NO_POLICY;
    if c.NotAnObject? {
      return;
    }
    if c.inputs.NotAnArray? || c.outputs.NotAnArray? {
      return;
    }
    var inputs: Bits, outputs: Bits := 0, 0;
    if c.inputs.Array? {
      inputs := CollectInputs(c.inputs.items);
    }
    if c.outputs.Array? {
      outputs := CollectOutputs(c.outputs.items);
    }
    policy := Policy(inputs, outputs, true);
  }
}
