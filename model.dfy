/** The plain data holders of the application: persisted entities and request/response bodies. */
module Model {

  /** A registered user (entity UserInfo). */
  datatype UserInfo = UserInfo(id: int, username: string, password: string, email: string, roles: string)

  /** A stored refresh-token record: the opaque token string, its owner and its absolute expiry,
      an instant counted in milliseconds. */
  datatype RefreshToken = RefreshToken(token: string, userInfo: UserInfo, expiryDate: int)

  /** Body of a login request (AuthRequestDTO). */
  datatype AuthRequest = AuthRequest(username: string, password: string)

  /** Body of a refresh request (RefreshTokenRequestDTO). */
  datatype RefreshTokenRequest = RefreshTokenRequest(refreshToken: string)

  /** The token pair handed back to the caller (JwtResponseDTO). */
  datatype JwtResponse = JwtResponse(accessToken: string, refreshToken: string)
}
