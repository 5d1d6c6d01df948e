/** The rows of the database, one datatype per table. */
module Models {
  import opened Wrappers

  datatype DeviceStatus = UNKNOWN | ONLINE | OFFLINE

  /** The columns that a successful SNMP probe fills in. */
  datatype SnmpInfo = SnmpInfo(
    hostname: Option<string>,
    sysDescr: Option<string>,
    sysObjectId: Option<string>,
    community: Option<string>,
    supported: bool,
    modelName: Option<string>,
    contact: Option<string>,
    location: Option<string>)

  /** The polling state of a device: its status, its backoff and its schedule. */
  datatype Polling = Polling(
    status: DeviceStatus,
    interval: int,             // seconds
    failures: int,
    nextPollAt: int,
    lastCheckedAt: Option<int>)

  /** A device row. Its identifier is its position in the table: no row is ever deleted. */
  datatype Device = Device(
    ip: string,
    mac: Option<string>,
    vendor: Option<string>,
    subnet: int,
    snmp: SnmpInfo,
    polling: Polling)

  datatype AvailabilityEvent = AvailabilityEvent(
    device: nat,
    status: DeviceStatus,
    startedAt: int,
    endedAt: Option<int>)

  datatype MetricDefinition = MetricDefinition(id: int, name: string, unit: Option<string>)

  datatype MetricHistory = MetricHistory(
    device: int,
    metric: int,
    at: int,
    number: Option<real>,
    text: Option<string>)

  /** The unique constraint of the trend table. */
  datatype BucketKey = BucketKey(device: int, metric: int, bucket: int)

  datatype MetricTrend = MetricTrend(min: real, max: real, avg: real, count: nat)

  datatype Tables = Tables(
    devices: seq<Device>,
    events: seq<AvailabilityEvent>,
    definitions: map<string, MetricDefinition>,
    history: seq<MetricHistory>,
    trends: map<BucketKey, MetricTrend>)
}
