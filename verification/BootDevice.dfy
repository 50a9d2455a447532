/**
  Boot device names, their recognition in a path, and the requirements of
  booting from each.
 */
module BootDevice {
  import opened Wrappers
  import opened Requirements

  datatype Device =
    | Mc0 | Mc1 | CdRom | CdFs | Mass | Mass0 | Mass1 | Mx4sio | Mx4sio0 | Mx4sio1 | Hdd | Hdd0 | Host | Host0 | Host1

  function Name(d: Device): string {
    match d
    case Mc0 => "mc0"
    case Mc1 => "mc1"
    case CdRom => "cdrom0"
    case CdFs => "cdfs"
    case Mass => "mass"
    case Mass0 => "mass0"
    case Mass1 => "mass1"
    case Mx4sio => "mx4sio"
    case Mx4sio0 => "mx4sio0"
    case Mx4sio1 => "mx4sio1"
    case Hdd => "hdd"
    case Hdd0 => "hdd0"
    case Host => "host"
    case Host0 => "host0"
    case Host1 => "host1"
  }

  function Prefix(d: Device): string {
    Name(d) + ":"
  }

  function RootPath(d: Device): string {
    Prefix(d) + "/"
  }

  predicate Starts(path: string, d: Device) {
    Prefix(d) <= path
  }

  /** The first prefix that matches, in the order of the source's tests; None is the unknown device. */
  function BootDeviceOf(path: string): Option<Device> {
    if Starts(path, Mc0) then Some(Mc0)
    else if Starts(path, Mc1) then Some(Mc1)
    else if Starts(path, CdRom) then Some(CdRom)
    else if Starts(path, CdFs) then Some(CdFs)
    else if Starts(path, Mass) then Some(Mass)
    else if Starts(path, Mass0) then Some(Mass0)
    else if Starts(path, Mass1) then Some(Mass1)
    else if Starts(path, Device.Mx4sio) then Some(Device.Mx4sio)
    else if Starts(path, Mx4sio0) then Some(Mx4sio0)
    else if Starts(path, Mx4sio1) then Some(Mx4sio1)
    else if Starts(path, Device.Hdd) then Some(Device.Hdd)
    else if Starts(path, Hdd0) then Some(Hdd0)
    else if Starts(path, Host) then Some(Host)
    else if Starts(path, Host0) then Some(Host0)
    else if Starts(path, Host1) then Some(Host1)
    else None
  }

  // ---- no two prefixes match one path ----

  lemma NoColon(d: Device)
    ensures ':' !in Name(d)
  {
  }

  lemma NamesDiffer(d: Device, e: Device)
    requires Name(d) == Name(e)
    ensures d == e
  {
    assert |Name(d)| == |Name(e)|;
    assert Name(d)[0] == Name(e)[0];
    assert Name(d)[1] == Name(e)[1];
    assert Name(d)[|Name(d)| - 1] == Name(e)[|Name(e)| - 1];
  }

  /** The first colon of a path decides the device. */
  lemma ColonDecides(path: string, d: Device, e: Device)
    requires Starts(path, d) && Starts(path, e)
    ensures Name(d) == Name(e)
  {
    hide Name;
    NoColon(d);
    NoColon(e);
    var n, k := |Name(d)|, |Name(e)|;
    assert path[n] == Prefix(d)[n] == ':' && path[k] == Prefix(e)[k] == ':';
    assert forall i :: 0 <= i < n ==> path[i] == Prefix(d)[i] == Name(d)[i];
    assert forall i :: 0 <= i < k ==> path[i] == Prefix(e)[i] == Name(e)[i];
    assert n == k;
  }

  lemma AtMostOne(path: string, d: Device, e: Device)
    requires Starts(path, d) && Starts(path, e)
    ensures d == e
  {
    ColonDecides(path, d, e);
    NamesDiffer(d, e);
  }

  /** The order of the tests does not matter: the device found is the one whose prefix matches. */
  lemma FoundIffStarts(path: string, d: Device)
    ensures BootDeviceOf(path) == Some(d) <==> Starts(path, d)
  {
    hide Starts;
    var found := BootDeviceOf(path);
    assert found.Some? ==> Starts(path, found.value);
    if Starts(path, d) {
      assert found.Some?;
      AtMostOne(path, d, found.value);
    }
  }

  /** Every device is recognised in its own root path. */
  lemma RootRoundTrip(d: Device)
    ensures BootDeviceOf(RootPath(d)) == Some(d)
  {
    FoundIffStarts(RootPath(d), d);
  }

  /** The root paths as the source lists them. */
  lemma RootPathListed(d: Device)
    ensures RootPath(d) ==
            match d
            case Mc0 => "mc0:/"
            case Mc1 => "mc1:/"
            case CdRom => "cdrom0:/"
            case CdFs => "cdfs:/"
            case Mass => "mass:/"
            case Mass0 => "mass0:/"
            case Mass1 => "mass1:/"
            case Mx4sio => "mx4sio:/"
            case Mx4sio0 => "mx4sio0:/"
            case Mx4sio1 => "mx4sio1:/"
            case Hdd => "hdd:/"
            case Hdd0 => "hdd0:/"
            case Host => "host:/"
            case Host0 => "host0:/"
            case Host1 => "host1:/"
  {
  }

  // ---- requirements ----

  /** The mask that booting from a device asks for, over what the caller adds. */
  function BootRequirements(d: Option<Device>): bv32 {
    var base := Bit(FileXio);
    match d
    case Some(Mc0) => With(base, Memcard)
    case Some(Mc1) => With(base, Memcard)
    case Some(CdRom) => With(base, Cdfs)
    case Some(CdFs) => With(base, Cdfs)
    case Some(Mass) => With(With(base, Usb), Driver.Mx4sio)
    case Some(Mass0) => With(With(base, Usb), Driver.Mx4sio)
    case Some(Mass1) => With(With(base, Usb), Driver.Mx4sio)
    case Some(Mx4sio) => With(With(base, Usb), Driver.Mx4sio)
    case Some(Mx4sio0) => With(With(base, Usb), Driver.Mx4sio)
    case Some(Mx4sio1) => With(With(base, Usb), Driver.Mx4sio)
    case Some(Hdd) => With(With(base, Poweroff), Driver.Hdd)
    case Some(Hdd0) => With(With(base, Poweroff), Driver.Hdd)
    case _ => base
  }

  /** requirements_for_path; a null path or unknown additional bits are an argument error. */
  function RequirementsForPath(path: Option<string>, additional: bv32): Option<bv32> {
    if path.None? || Unknown(additional) then None
    else Some(BootRequirements(BootDeviceOf(path.value)) | additional)
  }
}
