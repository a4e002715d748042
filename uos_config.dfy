/** The capability schema: the UOS function table, the pin and device records, the
    Arduino Nano 3 definition and the registry of device aliases. */
module UosConfig {
  import opened Outcomes

  /** The transports a device can be reached through. */
  datatype Interface = USB | STUB

  /** A peripheral role a pin can take, such as `{"type": "mosi", "bus": 0}`. */
  datatype Peripheral = Peripheral(role: string, bus: int)

  /** The features a pin supports. The dictionary-valued features are None when empty. */
  datatype Pin = Pin(
    gpioOut: bool, gpioIn: bool, dacOut: bool, pwmOut: bool, adcIn: bool,
    pullUp: bool, pullDown: bool, pcInt: bool, hwInt: bool,
    timer: Option<Peripheral>, comp: Option<Peripheral>, spi: Option<Peripheral>, i2c: Option<Peripheral>)

  /** The attribute names every `Pin` has, whatever their values. */
  const PIN_FIELDS: set<string> := {
    "gpio_out", "gpio_in", "dac_out", "pwm_out", "adc_in", "pull_up", "pull_down",
    "pc_int", "hw_int", "timer", "comp", "spi", "i2c"
  }

  /** `hasattr(pin, name)`: true for every field name, regardless of the field's value. */
  predicate PinHasAttr(pin: Pin, name: string)
  {
    name in PIN_FIELDS
  }

  /** An entry of the schema: the subsystem address per volatility, whether an ACK is
      sent, the payload length of each data frame, fixed payload elements (None where the
      caller supplies the value) and the pin features the function needs (None when pins
      are irrelevant). */
  datatype UosFunction = UosFunction(
    addressLut: map<int, int>,
    ack: bool,
    rxPacketsExpected: seq<int>,
    requiredArguments: Option<seq<Option<int>>>,
    pinRequirements: Option<seq<string>>)

  const UOS_SCHEMA: map<string, UosFunction> := map[
    "set_gpio_output" := UosFunction(map[0 := 64], true, [], Some([None, Some(0), None]), Some(["gpio_out"])),
    "get_gpio_input" := UosFunction(map[0 := 64], true, [1], Some([None, Some(1), None]), Some(["gpio_in"])),
    "get_adc_input" := UosFunction(map[0 := 85], true, [2], None, Some(["adc_in"])),
    "reset_all_io" := UosFunction(map[0 := 68], true, [], None, None),
    "hard_reset" := UosFunction(map[0 := -1], false, [], None, None),
    "get_system_info" := UosFunction(map[0 := 250], true, [6], None, None),
    "get_gpio_config" := UosFunction(map[0 := 251], true, [2], None, Some([]))
  ]

  /** Every schema address table is keyed by volatility 0 alone, and `hard_reset` is the
      one function whose address is negative (a special action, not a wire instruction). */
  lemma SchemaAddresses()
    ensures forall f | f in UOS_SCHEMA :: UOS_SCHEMA[f].addressLut.Keys == {0}
    ensures forall f | f in UOS_SCHEMA :: UOS_SCHEMA[f].addressLut[0] < 0 <==> f == "hard_reset"
  {
  }

  /** A value of a device's `functions_enabled` table: the `True` a definition starts with,
      or the schema address it is resolved to. */
  datatype Enabled = On | Addr(address: int)

  /** The address an enabled entry stands for; Python's `True` compares and behaves as 1. */
  function WireAddress(e: Enabled): (a: int)
    ensures e.Addr? ==> a == e.address
    ensures e.On? ==> a == 1
  {
    match e
    case On => 1
    case Addr(address) => address
  }

  /** Every enabled function is in the schema, with only volatilities its table knows. */
  predicate Consistent(functionsEnabled: map<string, map<int, Enabled>>)
  {
    forall f | f in functionsEnabled ::
      f in UOS_SCHEMA && functionsEnabled[f].Keys <= UOS_SCHEMA[f].addressLut.Keys
  }

  const UNKNOWN_FUNCTION_PREFIX := "UOS function "

  /** A device definition. Its function table is replaced in place when the definition
      is looked up, so it is the one mutable field. */
  class Device {
    const name: string
    const interfaces: seq<Interface>
    var functionsEnabled: map<string, map<int, Enabled>>
    const digitalPins: map<int, Pin>
    const analoguePins: map<int, Pin>
    const auxParams: map<string, int>

    constructor(name: string, interfaces: seq<Interface>, functionsEnabled: map<string, map<int, Enabled>>,
                digitalPins: map<int, Pin>, analoguePins: map<int, Pin>, auxParams: map<string, int>)
      ensures this.name == name && this.interfaces == interfaces
      ensures this.functionsEnabled == functionsEnabled
      ensures this.digitalPins == digitalPins && this.analoguePins == analoguePins
      ensures this.auxParams == auxParams
    {
      this.name := name;
      this.interfaces := interfaces;
      this.functionsEnabled := functionsEnabled;
      this.digitalPins := digitalPins;
      this.analoguePins := analoguePins;
      this.auxParams := auxParams;
    }

    /** The pins suitable for a schema function, keyed by pin index: analogue pins when
        the function needs `adc_in`, digital pins otherwise, filtered by `hasattr` on each
        requirement; no pins when pins are irrelevant; UOSUnsupportedError for a name the
        schema does not define. */
    function GetCompatiblePins(functionName: string): (r: Result<map<int, Pin>>)
      ensures r.Failure? <==> functionName !in UOS_SCHEMA
      ensures r.Failure? ==> r.error == Error(Unsupported, UNKNOWN_FUNCTION_PREFIX + functionName + " doesn't exist.")
      ensures r.Success? && UOS_SCHEMA[functionName].pinRequirements.None? ==> r.value == map[]
      ensures r.Success? && UOS_SCHEMA[functionName].pinRequirements.Some? ==>
                var requirements := UOS_SCHEMA[functionName].pinRequirements.value;
                var selected := if "adc_in" in requirements then analoguePins else digitalPins;
                && r.value.Keys <= selected.Keys
                && (forall pin | pin in r.value :: r.value[pin] == selected[pin])
                && (forall pin | pin in r.value :: forall i | 0 <= i < |requirements| :: PinHasAttr(r.value[pin], requirements[i]))
    {
      if functionName !in UOS_SCHEMA then
        Failure(Error(Unsupported, UNKNOWN_FUNCTION_PREFIX + functionName + " doesn't exist."))
      else
        match UOS_SCHEMA[functionName].pinRequirements
        case None => Success(map[])
        case Some(requirements) =>
          var pinDict := if "adc_in" in requirements then analoguePins else digitalPins;
          Success(map pin | pin in pinDict && (forall i | 0 <= i < |requirements| :: PinHasAttr(pinDict[pin], requirements[i])) :: pinDict[pin])
    }
  }

  /** Because every schema requirement names a `Pin` field, the filter keeps every pin:
      a schema function with pin requirements gets the whole selected pin map. */
  lemma CompatiblePinsAreWholeMap(device: Device, functionName: string)
    requires functionName in UOS_SCHEMA && UOS_SCHEMA[functionName].pinRequirements.Some?
    ensures device.GetCompatiblePins(functionName)
         == Success(if "adc_in" in UOS_SCHEMA[functionName].pinRequirements.value then device.analoguePins else device.digitalPins)
  {
    var requirements := UOS_SCHEMA[functionName].pinRequirements.value;
    assert requirements in {["gpio_out"], ["gpio_in"], ["adc_in"], []};
    var selected := if "adc_in" in requirements then device.analoguePins else device.digitalPins;
    var pins := device.GetCompatiblePins(functionName).value;
    forall pin | pin in selected
      ensures pin in pins
    {
      assert forall i | 0 <= i < |requirements| :: PinHasAttr(selected[pin], requirements[i]);
    }
    assert pins.Keys == selected.Keys;
    assert forall pin | pin in pins :: pins[pin] == selected[pin];
    assert pins == selected;
  }

  // ---------------------------------------------------------------------------
  // Arduino Nano 3

  /** A digital pin of the Nano: GPIO in and out, pull-up and pin-change interrupt, plus
      the listed extras. */
  function NanoDigital(pwm: bool, hwInt: bool, comp: Option<Peripheral>, spi: Option<Peripheral>, i2c: Option<Peripheral>): Pin
  {
    Pin(true, true, false, pwm, false, true, false, true, hwInt, None, comp, spi, i2c)
  }

  const NANO_ANALOGUE: Pin := Pin(false, false, false, false, true, false, false, false, false, None, None, None, None)

  const NANO_DIGITAL_PINS: map<int, Pin> := map[
    2 := NanoDigital(false, true, None, None, None),
    3 := NanoDigital(true, true, None, None, None),
    4 := NanoDigital(false, false, None, None, None),
    5 := NanoDigital(true, false, None, None, None),
    6 := NanoDigital(true, false, Some(Peripheral("low", 0)), None, None),
    7 := NanoDigital(false, false, Some(Peripheral("high", 0)), None, None),
    8 := NanoDigital(false, false, None, None, None),
    9 := NanoDigital(true, false, None, None, None),
    10 := NanoDigital(true, false, None, Some(Peripheral("ss", 0)), None),
    11 := NanoDigital(true, false, None, Some(Peripheral("mosi", 0)), None),
    12 := NanoDigital(false, false, None, Some(Peripheral("miso", 0)), None),
    13 := NanoDigital(false, false, None, None, Some(Peripheral("sck", 0))),
    14 := NanoDigital(false, false, None, None, None),
    15 := NanoDigital(false, false, None, None, None),
    16 := NanoDigital(false, false, None, None, None),
    17 := NanoDigital(false, false, None, None, None),
    18 := NanoDigital(false, false, None, None, Some(Peripheral("sda", 0))),
    19 := NanoDigital(false, false, None, None, Some(Peripheral("scl", 0)))
  ]

  const NANO_ANALOGUE_PINS: map<int, Pin> := map[
    0 := NANO_ANALOGUE, 1 := NANO_ANALOGUE, 2 := NANO_ANALOGUE, 3 := NANO_ANALOGUE, 4 := NANO_ANALOGUE,
    5 := NANO_ANALOGUE, 6 := NANO_ANALOGUE, 7 := NANO_ANALOGUE, 8 := NANO_ANALOGUE
  ]

  const NANO_FUNCTIONS: map<string, map<int, Enabled>> := map[
    "set_gpio_output" := map[0 := On],
    "get_gpio_input" := map[0 := On],
    "get_adc_input" := map[0 := On],
    "reset_all_io" := map[0 := On],
    "hard_reset" := map[0 := On],
    "get_system_info" := map[0 := On],
    "get_gpio_config" := map[0 := On]
  ]

  const DEFAULT_BAUDRATE_KEY := "default_baudrate"

  /** The Nano enables only schema functions, each at volatility 0. */
  lemma NanoFunctionsConsistent()
    ensures Consistent(NANO_FUNCTIONS)
    ensures NANO_FUNCTIONS.Keys == UOS_SCHEMA.Keys
    ensures forall f | f in NANO_FUNCTIONS :: NANO_FUNCTIONS[f] == map[0 := On]
  {
    SchemaAddresses();
    assert NANO_FUNCTIONS.Keys == UOS_SCHEMA.Keys;
    assert forall f | f in NANO_FUNCTIONS :: NANO_FUNCTIONS[f] == map[0 := On];
  }

  /** A device built from the Nano 3 constants. */
  predicate IsNano(d: Device)
  {
    && d.name == "Arduino Nano 3"
    && d.interfaces == [USB, STUB]
    && d.digitalPins == NANO_DIGITAL_PINS
    && d.analoguePins == NANO_ANALOGUE_PINS
    && d.auxParams == map[DEFAULT_BAUDRATE_KEY := 115200]
  }

  lemma NanoDigitalPinRange()
    ensures forall p :: p in NANO_DIGITAL_PINS <==> 2 <= p <= 19
    ensures forall p | p in NANO_DIGITAL_PINS :: NANO_DIGITAL_PINS[p].gpioOut
  {
    forall p | 2 <= p <= 19 ensures p in NANO_DIGITAL_PINS {
      if p <= 10 {
        assert p in {2, 3, 4, 5, 6, 7, 8, 9, 10};
      } else {
        assert p in {11, 12, 13, 14, 15, 16, 17, 18, 19};
      }
    }
  }

  lemma NanoAnaloguePinRange()
    ensures forall p :: p in NANO_ANALOGUE_PINS <==> 0 <= p <= 8
    ensures forall p | p in NANO_ANALOGUE_PINS :: NANO_ANALOGUE_PINS[p].adcIn
  {
    forall p | 0 <= p <= 8 ensures p in NANO_ANALOGUE_PINS {
      assert p in {0, 1, 2, 3, 4, 5, 6, 7, 8};
    }
  }

  /** On the Nano, the pins offered for output are digital pins 2 to 19 and all drive
      outputs. */
  lemma NanoOutputPins(d: Device)
    requires IsNano(d)
    ensures d.GetCompatiblePins("set_gpio_output").Success?
    ensures var pins := d.GetCompatiblePins("set_gpio_output").value;
              (forall p :: p in pins <==> 2 <= p <= 19) && forall p | p in pins :: pins[p].gpioOut
  {
    assert UOS_SCHEMA["set_gpio_output"].pinRequirements == Some(["gpio_out"]);
    assert "adc_in" !in ["gpio_out"];
    CompatiblePinsAreWholeMap(d, "set_gpio_output");
    var pins := d.GetCompatiblePins("set_gpio_output").value;
    assert pins == NANO_DIGITAL_PINS;
    NanoDigitalPinRange();
  }

  /** On the Nano, the pins offered for ADC reads are analogue pins 0 to 8 and all have
      an ADC. */
  lemma NanoAdcPins(d: Device)
    requires IsNano(d)
    ensures d.GetCompatiblePins("get_adc_input").Success?
    ensures var pins := d.GetCompatiblePins("get_adc_input").value;
              (forall p :: p in pins <==> 0 <= p <= 8) && forall p | p in pins :: pins[p].adcIn
  {
    assert UOS_SCHEMA["get_adc_input"].pinRequirements == Some(["adc_in"]);
    CompatiblePinsAreWholeMap(d, "get_adc_input");
    var pins := d.GetCompatiblePins("get_adc_input").value;
    assert pins == NANO_ANALOGUE_PINS;
    NanoAnaloguePinRange();
  }

  /** A function without pin requirements is offered no pins, and a name outside the
      schema is refused. */
  lemma PinlessFunctions(d: Device)
    ensures d.GetCompatiblePins("hard_reset") == Success(map[])
    ensures d.GetCompatiblePins("reset_all_io") == Success(map[])
    ensures d.GetCompatiblePins("get_system_info") == Success(map[])
    ensures d.GetCompatiblePins("not_a_uos_function").Failure?
  {
  }

  /** The registry of device definitions: every alias refers to the one Nano object. */
  const DEVICE_ALIASES: set<string> := {"HWID0", "ARDUINO NANO 3", "ARDUNIO NANO"}

  class Registry {
    const nano: Device
    const devices: map<string, Device>

    predicate Valid()
      reads this, nano
    {
      && devices.Keys == DEVICE_ALIASES
      && (forall k | k in devices :: devices[k] == nano)
      && Consistent(nano.functionsEnabled)
    }

    constructor()
      ensures Valid() && fresh(nano)
      ensures IsNano(nano) && nano.functionsEnabled == NANO_FUNCTIONS
    {
      var d := new Device("Arduino Nano 3", [USB, STUB], NANO_FUNCTIONS,
                          NANO_DIGITAL_PINS, NANO_ANALOGUE_PINS, map[DEFAULT_BAUDRATE_KEY := 115200]);
      nano := d;
      devices := map["HWID0" := d, "ARDUINO NANO 3" := d, "ARDUNIO NANO" := d];
      NanoFunctionsConsistent();
    }
  }
}
