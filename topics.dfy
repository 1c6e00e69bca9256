/**
 * The three MQTT topic names of one NB-IoT converter, formed from its IMEI when the bridge is
 * constructed: status (heartbeat and disconnect), tx (commands to the device), rx (its replies).
 */
module Topics {
  const Prefix: string := "/maxlong/broker/imei/"

  /** The IMEI of the converter's LTE module that the bridge is configured for (15 digits). */
  const DefaultImei: string := "866425030013488"

  function Status(imei: string): (t: string)
    ensures |t| == |Prefix| + |imei| + 7
    ensures t[..|Prefix|] == Prefix && t[|Prefix|..|Prefix| + |imei|] == imei
    ensures t[|Prefix| + |imei|..] == "/status"
  {
    Prefix + imei + "/status"
  }

  function Tx(imei: string): (t: string)
    ensures |t| == |Prefix| + |imei| + 3
    ensures t[..|Prefix|] == Prefix && t[|Prefix|..|Prefix| + |imei|] == imei
    ensures t[|Prefix| + |imei|..] == "/tx"
  {
    Prefix + imei + "/tx"
  }

  function Rx(imei: string): (t: string)
    ensures |t| == |Prefix| + |imei| + 3
    ensures t[..|Prefix|] == Prefix && t[|Prefix|..|Prefix| + |imei|] == imei
    ensures t[|Prefix| + |imei|..] == "/rx"
  {
    Prefix + imei + "/rx"
  }

  /** All three begin with the prefix, then the IMEI, then a slash. */
  lemma SharePrefix(imei: string)
    ensures Status(imei)[..|Prefix| + |imei| + 1] == Prefix + imei + "/"
    ensures Tx(imei)[..|Prefix| + |imei| + 1] == Prefix + imei + "/"
    ensures Rx(imei)[..|Prefix| + |imei| + 1] == Prefix + imei + "/"
  {
    var p := Prefix + imei + "/";
    assert Status(imei) == p + "status";
    assert Tx(imei) == p + "tx";
    assert Rx(imei) == p + "rx";
  }

  /**
   * No status topic is a tx or rx topic and no tx topic is an rx topic, for any two IMEIs:
   * the three kinds end differently. So routing by topic is never ambiguous.
   */
  lemma Disjoint(a: string, b: string)
    ensures Status(a) != Tx(b) && Status(a) != Rx(b) && Tx(a) != Rx(b)
  {
    assert Status(a)[|Status(a)| - 1] == 's';
    assert Tx(b)[|Tx(b)| - 1] == 'x';
    assert Rx(b)[|Rx(b)| - 1] == 'x';
    assert Tx(a)[|Tx(a)| - 2] == 't';
    assert Rx(b)[|Rx(b)| - 2] == 'r';
  }

  /** The topics of the configured converter, and that status and rx differ. */
  lemma ConfiguredTopics()
    ensures Status(DefaultImei) == "/maxlong/broker/imei/866425030013488/status"
    ensures Tx(DefaultImei) == "/maxlong/broker/imei/866425030013488/tx"
    ensures Rx(DefaultImei) == "/maxlong/broker/imei/866425030013488/rx"
    ensures Status(DefaultImei) != Rx(DefaultImei)
  {
    Disjoint(DefaultImei, DefaultImei);
  }

  /** Each topic name determines the IMEI it was made from. */
  lemma Injective(a: string, b: string)
    ensures Status(a) == Status(b) ==> a == b
    ensures Tx(a) == Tx(b) ==> a == b
    ensures Rx(a) == Rx(b) ==> a == b
  {
    if Status(a) == Status(b) {
      assert a == Status(a)[|Prefix|..|Prefix| + |a|];
    }
    if Tx(a) == Tx(b) {
      assert a == Tx(a)[|Prefix|..|Prefix| + |a|];
    }
    if Rx(a) == Rx(b) {
      assert a == Rx(a)[|Prefix|..|Prefix| + |a|];
    }
  }
}
