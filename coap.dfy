/**
 * The CoAP session guard of src/ec01f/coap.rs: creating a client sends the
 * command that opens a CoAP context on the module, dropping it sends the
 * command that deletes it. The client holds the device's exclusive borrow in
 * between, and offers no other operation.
 */
module Coap {
  import opened Text
  import opened Reader
  import At
  import Ec01f

  /** The CoAP port the context is created on. */
  const COAP_PORT: nat := 5683

  /** `AT+COAPCREATE={}` with the port formatted in decimal. */
  const CREATE_COMMAND: seq<byte> := Ascii("AT+COAPCREATE=") + DecimalText(COAP_PORT)

  /** `AT+COAPDEL`. */
  const DELETE_COMMAND: seq<byte> := Ascii("AT+COAPDEL")

  /** The create command, formatted, is the text `AT+COAPCREATE=5683`. */
  lemma CreateCommandText()
    ensures CREATE_COMMAND == Ascii("AT+COAPCREATE=5683")
  {
    assert DecimalText(5683) == Ascii("5683") by {
      assert DecimalText(568) == Ascii("568") by {
        assert DecimalText(56) == Ascii("56") by {
          assert DecimalText(5) == Ascii("5");
        }
      }
    }
  }

  /** `CoAPClient<'a, D>`: the borrowed device. */
  class CoapClient {
    const device: Ec01f.Device

    /**
     * `CoAPClient::new`: writes the create command, ignores the result of the
     * write, reads nothing, and takes the device's borrow.
     */
    constructor (device: Ec01f.Device)
      requires device.Valid() && device.lentTo == null
      modifies device
      ensures this.device == device && device.lentTo == this && device.Valid()
      ensures device.tx == old(device.tx) + CREATE_COMMAND + [LF]
      ensures device.pos == old(device.pos)
    {
      var _ := device.WriteCmd(CREATE_COMMAND);
      this.device := device;
      new;
      device.lentTo := this;
    }

    /**
     * `Drop for CoAPClient`: writes the delete command and, when that write
     * succeeds, waits with `read_ok`; whatever either reports is discarded.
     * The borrow ends with the drop; its bookkeeping is released first so
     * that the two calls below are the client's own.
     */
    method Drop()
      requires device.Valid() && device.lentTo == this
      modifies device
      ensures device.lentTo == null && device.Valid()
      ensures device.tx == old(device.tx) + DELETE_COMMAND + [LF]
      ensures device.pos == AwaitOkFrom(At.ParseResponse, device.rx, old(device.pos)).pos
    {
      device.lentTo := null;
      var w := device.WriteCmd(DELETE_COMMAND);
      if w.Ok? {
        var _ := device.ReadOk();
      }
    }
  }

  /** `EC01F::create_coap`: lends the device to a new client. */
  method CreateCoap(device: Ec01f.Device) returns (client: CoapClient)
    requires device.Valid() && device.lentTo == null
    modifies device
    ensures fresh(client) && client.device == device && device.lentTo == client && device.Valid()
    ensures device.tx == old(device.tx) + CREATE_COMMAND + [LF]
    ensures device.pos == old(device.pos)
  {
    client := new CoapClient(device);
  }

  /**
   * A client's whole lifetime, `{ let client = device.create_coap(); }`: the
   * client has no operation besides its drop, so the only traffic on the
   * device in that span is the create command, then the delete command and
   * the `read_ok` after it; afterwards the device is free again.
   */
  method CoapLifetime(device: Ec01f.Device)
    requires device.Valid() && device.lentTo == null
    modifies device
    ensures device.lentTo == null && device.Valid()
    ensures device.tx == old(device.tx) + CREATE_COMMAND + [LF] + DELETE_COMMAND + [LF]
    ensures device.pos == AwaitOkFrom(At.ParseResponse, device.rx, old(device.pos)).pos
  {
    var client := CreateCoap(device);
    client.Drop();
  }
}
