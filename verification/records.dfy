/** The desired state of one profile: the class-access template and the
    update record built for every retained profile name. */
module Records {
  import opened Shapes

  /** The flag the source writes into every class access: the string
      `"true"`, not a boolean. */
  const EnabledFlag: string := "true"

  /** One class-access entry of a profile. */
  datatype ClassAccess = ClassAccess(apexClass: string, enabled: string)

  /** The configuration the transformation reads: names never to update,
      classes to grant, and object permissions to pass through. `P` is the
      platform's object-permission structure, which is never inspected. */
  datatype Config<P> = Config(excludedProfiles: seq<string>, classAccess: Input<string>, objectAccess: Option<seq<P>>)

  /** The unit submitted to the update call. */
  datatype ProfileRecord<P> = ProfileRecord(fullName: string, classAccesses: seq<ClassAccess>, objectPermissions: seq<P>)

  /** One enabled entry per class name, pushed in order. */
  function GrantEach(classNames: seq<string>): (accesses: seq<ClassAccess>)
    ensures |accesses| == |classNames|
    ensures forall j :: 0 <= j < |accesses| ==>
      accesses[j].apexClass == classNames[j] && accesses[j].enabled == EnabledFlag
    decreases |classNames|
  {
    if |classNames| == 0 then []
    else GrantEach(classNames[..|classNames| - 1]) + [ClassAccess(classNames[|classNames| - 1], EnabledFlag)]
  }

  /** The apex classes an access list grants, in order. */
  function GrantedClasses(accesses: seq<ClassAccess>): seq<string>
  {
    seq(|accesses|, j requires 0 <= j < |accesses| => accesses[j].apexClass)
  }

  /** `updateClassAccess`: a value that is not an array grants nothing;
      otherwise entry `j` grants class `j`, enabled. */
  function ClassAccesses(classNames: Input<string>): (accesses: seq<ClassAccess>)
    ensures classNames.NotAnArray? ==> accesses == []
    ensures classNames.JsArray? ==> |accesses| == |classNames.elems|
    ensures classNames.JsArray? ==> forall j :: 0 <= j < |accesses| ==>
      accesses[j].apexClass == classNames.elems[j] && accesses[j].enabled == EnabledFlag
    ensures classNames.JsArray? ==> GrantedClasses(accesses) == classNames.elems
  {
    match classNames
    case NotAnArray => []
    case JsArray(names) => GrantEach(names)
  }

  /** `config.objectAccess || []`: the configured permissions, or none. */
  function ObjectPermissions<P>(cfg: Config<P>): seq<P>
  {
    match cfg.objectAccess
    case None => []
    case Some(p) => p
  }

  /** The profile names a list of records updates, in order. */
  function FullNames<P>(records: seq<ProfileRecord<P>>): seq<string>
  {
    seq(|records|, i requires 0 <= i < |records| => records[i].fullName)
  }

  /** The record-building loop: one record per name, in order, each carrying
      the same class-access template and the same object permissions. */
  function BuildRecords<P>(names: seq<string>, cfg: Config<P>): (records: seq<ProfileRecord<P>>)
    ensures |records| == |names|
    ensures forall i :: 0 <= i < |records| ==> records[i].fullName == names[i]
    ensures FullNames(records) == names
    ensures forall i :: 0 <= i < |records| ==>
      records[i].classAccesses == ClassAccesses(cfg.classAccess)
      && records[i].objectPermissions == ObjectPermissions(cfg)
    decreases |names|
  {
    if |names| == 0 then []
    else
      var record := ProfileRecord(names[|names| - 1], ClassAccesses(cfg.classAccess), ObjectPermissions(cfg));
      BuildRecords(names[..|names| - 1], cfg) + [record]
  }
}
