/**
 Object names and capabilities, as the printer, the elaborator and the analysis share them.
 */
module Caps {
  import opened Wrappers

  datatype ObjId = ObjId(name: string, index: Option<nat>)

  datatype Right = Read | Write | Grant | GrantReply

  datatype Asid = Asid(high: nat, low: nat)

  /** Objects whose caps have no parameters at all. */
  datatype PlainKind = Untyped | AsidPool | IoPageTable | IoPorts | IoDevice | ArmIoDevice | Vcpu | SchedContext
                     | IoApicIrq | MsiIrq | ArmIrq | ArmStreamId | ArmContextBank

  datatype UpperTable = Pml4 | Pdpt | Pud | Pgd

  datatype Control = IoSpaceMaster | AsidControl | IrqControl | Domain

  datatype Cap =
    | NullCap
    | ControlCap(control: Control)
    | SchedControlCap(core: nat)
    | EndpointCap(id: ObjId, badge: nat, rights: set<Right>)
    | NotificationCap(id: ObjId, badge: nat, rights: set<Right>)
    | RtReplyCap(id: ObjId, rights: set<Right>)
    | TcbCap(id: ObjId)
    | ReplyCap(id: ObjId)
    | MasterReplyCap(id: ObjId)
    | CNodeCap(id: ObjId, guard: nat, guardSize: nat)
    | IrqHandlerCap(id: ObjId)
    | FrameCap(id: ObjId, rights: set<Right>, asid: Option<Asid>, cached: bool, mapping: Option<(ObjId, nat)>)
    | PageTableCap(id: ObjId, asid: Option<Asid>)
    | PageDirectoryCap(id: ObjId, asid: Option<Asid>)
    | UpperCap(table: UpperTable, id: ObjId, asid: Option<Asid>)
    | PlainCap(plain: PlainKind, id: ObjId)

  predicate HasObject(c: Cap) {
    !c.NullCap? && !c.ControlCap? && !c.SchedControlCap?
  }

  /** The same cap to another object. */
  function To(c: Cap, o: ObjId): Cap
    requires HasObject(c)
  {
    c.(id := o)
  }
}
