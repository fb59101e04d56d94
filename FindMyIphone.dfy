/** Device selection: which iCloud device's location the run uses (index.js:21-34). */
module FindMyIphone {
  import opened Wrappers
  import opened Failures
  import Seqs

  /** Coordinates are only passed through; their values carry no meaning here. */
  datatype Coords = Coords(latitude: real, longitude: real)

  /** One entry of the iCloud device list; `location` is absent when iCloud has no fix. */
  datatype Device = Device(location: Option<Coords>, deviceDisplayName: string)

  /** The condition of the device filter: a location is known and the display name is the configured one. */
  predicate IsMine(deviceName: string, d: Device) {
    d.location.Some? && d.deviceDisplayName == deviceName
  }

  function IsMineFor(deviceName: string): Device -> bool {
    d => IsMine(deviceName, d)
  }

  /**
   * The location handed to the next stage: an error from the device lookup is passed on,
   * no matching device gives no location, otherwise the first matching device's location.
   */
  function FindMyLocation(devices: Result<seq<Device>, string>, deviceName: string): Result<Option<Coords>, Failure> {
    match devices
    case Err(e) => Err(Reported(e))
    case Ok(ds) =>
      var myPhones := Seqs.Filter(ds, IsMineFor(deviceName));
      if |myPhones| == 0 then Ok(None)
      else
        var first := myPhones[0];
        assert first in myPhones;
        Ok(Some(first.location.value))
  }

  /**
   * On a device list, the result is the location of the first device, in list order, that is mine;
   * it is absent exactly when no device is mine. A lookup error is passed on unchanged.
   */
  lemma FindMyLocationFirstMatch(devices: Result<seq<Device>, string>, deviceName: string)
    ensures devices.Err? ==> FindMyLocation(devices, deviceName) == Err(Reported(devices.error))
    ensures devices.Ok? ==>
      var ds := devices.value;
      && (FindMyLocation(devices, deviceName) == Ok(None) <==> forall i :: 0 <= i < |ds| ==> !IsMine(deviceName, ds[i]))
      && forall c :: FindMyLocation(devices, deviceName) == Ok(Some(c)) <==>
           exists i :: && 0 <= i < |ds| && IsMine(deviceName, ds[i]) && ds[i].location == Some(c)
                       && forall j :: 0 <= j < i ==> !IsMine(deviceName, ds[j])
  {
    if devices.Ok? {
      var ds := devices.value;
      var p := IsMineFor(deviceName);
      Seqs.FilterHead(ds, p);
      forall c ensures FindMyLocation(devices, deviceName) == Ok(Some(c)) <==>
          exists i :: && 0 <= i < |ds| && IsMine(deviceName, ds[i]) && ds[i].location == Some(c)
                      && forall j :: 0 <= j < i ==> !IsMine(deviceName, ds[j])
      {
        if exists i :: && 0 <= i < |ds| && IsMine(deviceName, ds[i]) && ds[i].location == Some(c)
                       && forall j :: 0 <= j < i ==> !IsMine(deviceName, ds[j]) {
          var i :| && 0 <= i < |ds| && IsMine(deviceName, ds[i]) && ds[i].location == Some(c)
                   && forall j :: 0 <= j < i ==> !IsMine(deviceName, ds[j]);
          var i' :| 0 <= i' < |ds| && p(ds[i']) && Seqs.Filter(ds, p)[0] == ds[i'] && forall j :: 0 <= j < i' ==> !p(ds[j]);
          assert p(ds[i]) && p(ds[i']);
          assert i == i';
        }
      }
    }
  }
}
