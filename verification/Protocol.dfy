/** The level-1 messages client and server exchange, as far as the connection protocol reads them. */
module Protocol {

  datatype ConnRejCause = ConnNoCause | IpAddressConflict | BadClientVersion | UnexpectedConnReq

  datatype LoginRejCause = UserUnknown | WrongPassword | UnexpectedLoginProc

  datatype RegRejCause = UserAlreadyExisting | IncorrectEmail | UnexpectedRegistration

  datatype DisconnectionCause = DiscNoCause | UserShutdown | ServerShutdown

  datatype Message =
    | ConnectionReq(version: string)
    | ConnectionCnf
    | ConnectionRej(connCause: ConnRejCause)
    | UserLoginReq(user: string, password: string)
    | UserLoginCnf
    | UserLoginRej(loginCause: LoginRejCause)
    | RegistrationReq(user: string, password: string, email: string)
    | RegistrationCnf
    | RegistrationRej(regCause: RegRejCause)
    | DisconnectionReq(discCause: DisconnectionCause)
    | DisconnectionCnf
    | PollReq
    | PollCnf
    | DataTransferReq
    | TransferDataBlk
    | FileTransferReq

  /** Messages both sides accept and ignore. */
  predicate Ignored(m: Message) {
    m.PollReq? || m.PollCnf? || m.DataTransferReq? || m.TransferDataBlk? || m.FileTransferReq?
  }
}
